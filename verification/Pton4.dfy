/** inet_pton4: the strict IPv4 parser, in place over its destination. */
module Pton4 {
  import opened Text
  import opened Ipv4Text

  /** What the locals of inet_pton4 say about the pieces read so far. */
  ghost predicate Scanned(parts: seq<string>, tmp: seq<Byte>, tp: int, sawDigit: bool, octets: int) {
    && 0 <= tp < 4 == |tmp|
    && |parts| == tp + 1
    && sawDigit == (parts[tp] != "")
    && octets == (if sawDigit then tp + 1 else tp)
    && (forall k :: 0 <= k < tp ==> OctetText(parts[k]))
    && OpenOctet(parts[tp])
    && (forall k :: 0 <= k <= tp ==> OpenOctet(parts[k]) && tmp[k] == DecVal(parts[k]))
  }

  lemma DigitAppended(p: string, ch: char)
    requires AllDigits(p) && IsDigit(ch)
    ensures AllDigits(p + [ch]) && DecVal(p + [ch]) == 10 * DecVal(p) + DigitVal(ch)
  {
    assert Front(p + [ch]) == p;
  }

  lemma DigitRead(s: string, ch: char, tmp: seq<Byte>, tp: int, sawDigit: bool, octets: int)
    requires Scanned(Split(s, '.'), tmp, tp, sawDigit, octets) && IsDigit(ch)
    ensures var d := tmp[tp] * 10 + DigitVal(ch); var next := Split(s + [ch], '.');
            if d > 255 then Hopeless(next)
            else Scanned(next, tmp[tp := d], tp, true, if sawDigit then octets else octets + 1)
  {
    hide Split;
    hide DecVal;
    SplitSnoc(s, ch, '.');
    var parts, next := Split(s, '.'), Split(s + [ch], '.');
    DigitAppended(parts[tp], ch);
    assert next == parts[tp := parts[tp] + [ch]];
  }

  lemma DotRead(s: string, tmp: seq<Byte>, tp: int, sawDigit: bool, octets: int)
    requires Scanned(Split(s, '.'), tmp, tp, sawDigit, octets)
    ensures var next := Split(s + ['.'], '.');
            if !sawDigit || octets == 4 then Hopeless(next)
            else Scanned(next, tmp[tp + 1 := 0], tp + 1, false, octets)
  {
    hide Split;
    SplitSnoc(s, '.', '.');
    assert Split(s + ['.'], '.')[tp] == Split(s, '.')[tp];
  }

  lemma OtherRead(s: string, ch: char)
    requires !IsDigit(ch) && ch != '.'
    ensures Hopeless(Split(s + [ch], '.'))
  {
    SplitSnoc(s, ch, '.');
    var p := Last(Split(s + [ch], '.'));
    assert p[|p| - 1] == ch;
  }

  lemma NothingRead(tmp: seq<Byte>)
    requires |tmp| == 4 && tmp[0] == 0
    ensures Scanned(Split("", '.'), tmp, 0, false, 0)
  {
  }

  lemma ScanEnds(s: string, tmp: seq<Byte>, tp: int, sawDigit: bool, octets: int)
    requires Scanned(Split(s, '.'), tmp, tp, sawDigit, octets)
    ensures IsQuad(s) <==> octets >= 4
    ensures IsQuad(s) ==> QuadBytes(s) == tmp
  {
    var parts := Split(s, '.');
    assert octets < 4 ==> |parts| < 4 || !OctetText(parts[3]);
  }

  lemma Bounds(parts: seq<string>, tmp: seq<Byte>, tp: int, sawDigit: bool, octets: int)
    requires Scanned(parts, tmp, tp, sawDigit, octets)
    ensures 0 <= tp < 4 == |tmp| && octets == if sawDigit then tp + 1 else tp
  {
  }

  method InetPton4(src: CString, dst: array<Byte>, at: nat) returns (ok: bool)
    requires at + 4 <= dst.Length
    modifies dst
    ensures ok == IsQuad(src)
    ensures ok ==> dst[..] == old(dst[..at]) + QuadBytes(src) + old(dst[at + 4..])
    ensures !ok ==> dst[..] == old(dst[..])
  {
    hide Split;
    hide IsQuad;
    hide QuadBytes;
    hide Scanned;
    hide Hopeless;
    var sawDigit, octets := false, 0;
    var tmp := new Byte[4];
    var tp := 0;
    tmp[tp] := 0;
    NothingRead(tmp[..]);
    var i := 0;
    assert src[..i] == "";
    while i < |src|
      invariant 0 <= i <= |src|
      invariant dst[..] == old(dst[..]) && fresh(tmp) && tmp.Length == 4
      invariant Scanned(Split(src[..i], '.'), tmp[..], tp, sawDigit, octets)
    {
      var ch := src[i];
      ghost var s, was := src[..i], tmp[..];
      Bounds(Split(s, '.'), was, tp, sawDigit, octets);
      i := i + 1;
      assert src[..i] == s + [ch] && src == src[..i] + src[i..];
      if IsDigit(ch) {
        DigitRead(s, ch, was, tp, sawDigit, octets);
        var d := tmp[tp] * 10 + DigitVal(ch);
        if d > 255 {
          HopelessIsFinal(src[..i], src[i..]);
          return false;
        }
        tmp[tp] := d;
        assert tmp[..] == was[tp := tmp[tp]];
        if !sawDigit {
          octets := octets + 1;
          if octets > 4 {
            return false;
          }
          sawDigit := true;
        }
      } else if ch == '.' && sawDigit {
        DotRead(s, was, tp, sawDigit, octets);
        if octets == 4 {
          HopelessIsFinal(src[..i], src[i..]);
          return false;
        }
        tp := tp + 1;
        tmp[tp] := 0;
        assert tmp[..] == was[tp := 0];
        sawDigit := false;
      } else {
        if ch == '.' {
          DotRead(s, was, tp, sawDigit, octets);
        } else {
          OtherRead(s, ch);
        }
        HopelessIsFinal(src[..i], src[i..]);
        return false;
      }
    }
    assert src[..i] == src;
    ScanEnds(src, tmp[..], tp, sawDigit, octets);
    if octets < 4 {
      return false;
    }
    dst[at], dst[at + 1], dst[at + 2], dst[at + 3] := tmp[0], tmp[1], tmp[2], tmp[3];
    return true;
  }
}
