/** inet_pton6: the IPv6 parser, with its in-place shift for "::". */
module Pton6 {
  import opened Text
  import opened Ipv4Text
  import opened Ipv6Text
  import opened Pton4

  /** What the locals of the scanning loop say about the text s read so far. */
  ghost predicate Scanned(s: string, a: Scan, val: nat, sawXdigit: bool) {
    var gs := Split(s, ':');
    && ScanGroups(Front(gs)) == Some(a)
    && OpenGroup(Last(gs))
    && val == HexVal(Last(gs))
    && sawXdigit == (Last(gs) != "")
  }

  // ----- reading one character -----

  lemma HexRead(s: string, ch: char, a: Scan, val: nat, sawXdigit: bool)
    requires Scanned(s, a, val, sawXdigit) && IsHexDigit(ch)
    ensures var v := val * 16 + HexDigitVal(ch);
            if v > 0xffff then !OpenGroup(Last(Split(s + [ch], ':')))
            else Scanned(s + [ch], a, v, true)
    ensures AllHex(Last(Split(s + [ch], ':')))
  {
    hide Split;
    hide ScanGroups;
    SplitSnoc(s, ch, ':');
    var g := Last(Split(s, ':'));
    AppendLast(Front(Split(s, ':')), [g + [ch]]);
    assert Front(Split(s, ':')) + Front([g + [ch]]) == Front(Split(s, ':'));
    HexAppended(g, ch);
  }

  lemma HexAppended(g: string, ch: char)
    requires AllHex(g) && IsHexDigit(ch)
    ensures AllHex(g + [ch]) && HexVal(g + [ch]) == HexVal(g) * 16 + HexDigitVal(ch) && g + [ch] != ""
  {
    assert Front(g + [ch]) == g;
  }

  lemma ColonRead(s: string, a: Scan, val: nat, sawXdigit: bool)
    requires Scanned(s, a, val, sawXdigit)
    ensures var next := Split(s + [':'], ':');
            if !sawXdigit then
              if a.gap.Some? then ScanGroups(Front(next)) == None
              else Scanned(s + [':'], a.(gap := Some(|a.bytes|)), 0, false)
            else
              if |a.bytes| + 2 > 16 then ScanGroups(Front(next)) == None
              else Scanned(s + [':'], a.(bytes := a.bytes + WordBytes(val)), 0, false)
  {
    SplitSnoc(s, ':', ':');
    assert Front(Split(s, ':') + [""]) == Split(s, ':');
  }

  lemma NoColonRead(s: string, ch: char)
    requires ch != ':'
    ensures var p, q := Split(s, ':'), Split(s + [ch], ':');
            Front(q) == Front(p) && Last(q) == Last(p) + [ch]
    ensures !IsHexDigit(ch) ==> !OpenGroup(Last(Split(s + [ch], ':')))
  {
    SplitSnoc(s, ch, ':');
    var g := Last(Split(s + [ch], ':'));
    assert g[|g| - 1] == ch;
  }

  // ----- rejecting early -----

  lemma {:induction false} ScanNoneExtends(p: seq<string>, q: seq<string>)
    requires ScanGroups(p) == None
    ensures ScanGroups(p + q) == None
  {
    if q == [] {
      assert p + q == p;
    } else {
      ScanNoneExtends(p, Front(q));
      AppendLast(p, q);
    }
  }

  lemma DeadGroups(s: string, t: string)
    requires ScanGroups(Front(Split(s, ':'))) == None
    ensures ParseGroups(Split(s + t, ':')) == None
  {
    hide Split;
    hide ScanGroups;
    SplitExtends(s, t, ':');
    var p, q := Split(s, ':'), Split(s + t, ':');
    ScanNoneExtends(Front(p), q[|p| - 1..|q| - 1]);
    assert Front(q) == Front(p) + q[|p| - 1..|q| - 1];
  }

  lemma {:induction false} HexValGrows(p: string, q: string)
    requires p <= q && AllHex(q)
    ensures AllHex(p) && HexVal(p) <= HexVal(q)
  {
    if p != q {
      assert p <= Front(q);
      HexValGrows(p, Front(q));
    }
  }

  lemma ClosedForHex(p: string, q: string)
    requires p <= q && !OpenGroup(p)
    ensures !OpenGroup(q)
  {
    if OpenGroup(q) {
      HexValGrows(p, q);
    }
  }

  /** Once the open group cannot be hex, only a dotted quad up to the end of the text can save it. */
  ghost predicate SavedByQuad(s: string, t: string) {
    var p, q := Split(s, ':'), Split(s + t, ':');
    && |q| == |p| && Front(q) == Front(p) && Last(p) <= Last(q) && IsQuad(Last(q))
    && ScanGroups(Front(p)).Some? && |ScanGroups(Front(p)).value.bytes| + 4 <= 16
  }

  lemma ClosedInner(q: seq<string>, k: nat)
    requires k < |q| - 1 && !OpenGroup(q[k])
    ensures ScanGroups(Front(q)) == None
  {
    assert Front(q[..k + 1]) == q[..k];
    assert ScanGroups(q[..k + 1]) == None;
    ScanNoneExtends(q[..k + 1], q[k + 1..|q| - 1]);
    assert Front(q) == q[..k + 1] + q[k + 1..|q| - 1];
  }

  lemma ClosedGroup(s: string, t: string)
    requires !OpenGroup(Last(Split(s, ':')))
    ensures ParseGroups(Split(s + t, ':')) == None || SavedByQuad(s, t)
  {
    hide Split;
    hide ScanGroups;
    SplitExtends(s, t, ':');
    var p, q := Split(s, ':'), Split(s + t, ':');
    var k := |p| - 1;
    ClosedForHex(Last(p), q[k]);
    if k < |q| - 1 {
      ClosedInner(q, k);
    } else {
      assert q[..k] == Front(q);
    }
  }

  lemma {:induction false} SplitChars(s: string, sep: char, i: nat)
    requires i < |s|
    ensures s[i] == sep || exists j :: 0 <= j < |Split(s, sep)| && s[i] in Split(s, sep)[j]
  {
    var parts := Split(Front(s), sep);
    if i == |s| - 1 {
      if s[i] != sep {
        assert s[i] in Split(s, sep)[|parts| - 1];
      }
    } else {
      SplitChars(Front(s), sep, i);
      if s[i] != sep {
        var j :| 0 <= j < |parts| && s[i] in parts[j];
        assert parts[j] <= Split(s, sep)[j];
        assert s[i] in Split(s, sep)[j];
      }
    }
  }

  lemma QuadChars(s: string)
    requires IsQuad(s)
    ensures forall i :: 0 <= i < |s| ==> IsDigit(s[i]) || s[i] == '.'
    ensures '.' in s
  {
    forall i | 0 <= i < |s| ensures IsDigit(s[i]) || s[i] == '.' {
      SplitChars(s, '.', i);
      if s[i] != '.' {
        var j :| 0 <= j < |Split(s, '.')| && s[i] in Split(s, '.')[j];
        assert OctetText(Split(s, '.')[j]);
      }
    }
    if '.' !in s {
      SplitNoSep(s, '.');
    }
  }

  lemma {:induction false} SmallDecimalSmallHex(d: string)
    requires AllDigits(d)
    ensures DecVal(d) < 10 ==> HexVal(d) < 10
    ensures DecVal(d) < 100 ==> HexVal(d) < 160
    ensures DecVal(d) < 1000 ==> HexVal(d) < 2560
  {
    if d != "" {
      SmallDecimalSmallHex(Front(d));
    }
  }

  /** No dotted quad begins with hex digits worth more than 0xffff. */
  lemma BigHexIsNoQuad(p: string, q: string)
    requires p <= q && AllHex(p) && HexVal(p) > 0xffff
    ensures !IsQuad(q)
  {
    if IsQuad(q) {
      QuadChars(q);
      forall i | 0 <= i < |p| ensures IsDigit(p[i]) {
        assert p[i] == q[i];
      }
      SplitNoSep(p, '.');
      SplitExtends(p, q[|p|..], '.');
      assert q == p + q[|p|..];
      var first := Split(q, '.')[0];
      assert OctetText(first);
      DecValGrows(p, first);
      SmallDecimalSmallHex(p);
    }
  }

  lemma OverflowRejected(s: string, t: string)
    requires AllHex(Last(Split(s, ':'))) && HexVal(Last(Split(s, ':'))) > 0xffff
    ensures ParseGroups(Split(s + t, ':')) == None
  {
    ClosedGroup(s, t);
    if SavedByQuad(s, t) {
      BigHexIsNoQuad(Last(Split(s, ':')), Last(Split(s + t, ':')));
    }
  }

  lemma StrangeCharRejected(s: string, ch: char, t: string)
    requires !IsHexDigit(ch) && ch != ':' && ch != '.'
    ensures ParseGroups(Split(s + [ch] + t, ':')) == None
  {
    NoColonRead(s, ch);
    ClosedGroup(s + [ch], t);
    if SavedByQuad(s + [ch], t) {
      var g := Last(Split(s, ':'));
      var q := Last(Split(s + [ch] + t, ':'));
      QuadChars(q);
      assert q[|g|] == ch;
    }
  }

  lemma {:induction false} SameCountNoSep(s: string, t: string, sep: char)
    requires |Split(s + t, sep)| == |Split(s, sep)|
    ensures sep !in t
  {
    hide Split;
    if t != "" {
      assert s + t == (s + Front(t)) + [Last(t)];
      SplitSnoc(s + Front(t), Last(t), sep);
      SplitExtends(s, Front(t), sep);
      SameCountNoSep(s, Front(t), sep);
    }
  }

  lemma QuadAtDot(s: string, t: string, a: Scan, val: nat, sawXdigit: bool)
    requires Scanned(s, a, val, sawXdigit) && IsQuad(Last(Split(s, ':')) + ['.'] + t)
    ensures var rest := Last(Split(s, ':')) + ['.'] + t;
            ParseGroups(Split(s + ['.'] + t, ':')) ==
            if |a.bytes| + 4 <= 16 then FillGap(a.(bytes := a.bytes + QuadBytes(rest))) else None
  {
    hide Split;
    hide ScanGroups;
    hide IsQuad;
    var g := Last(Split(s, ':'));
    var rest := g + ['.'] + t;
    QuadChars(rest);
    assert ':' !in rest && rest[|g| + 1..] == t;
    NoColonRead(s, '.');
    SplitRest(s + ['.'], t, ':');
    assert rest[|g|] == '.';
  }

  lemma NoQuadAtDot(s: string, t: string)
    requires !IsQuad(Last(Split(s, ':')) + ['.'] + t)
    ensures ParseGroups(Split(s + ['.'] + t, ':')) == None
  {
    hide Split;
    hide ParseGroups;
    hide IsQuad;
    NoColonRead(s, '.');
    ClosedGroup(s + ['.'], t);
    if SavedByQuad(s + ['.'], t) {
      SameCountNoSep(s + ['.'], t, ':');
      SplitRest(s + ['.'], t, ':');
    }
  }

  /** At a dot: the text from the open group on is one dotted quad with room for it, or all is lost. */
  lemma DotRead(s: string, t: string, a: Scan, val: nat, sawXdigit: bool)
    requires Scanned(s, a, val, sawXdigit)
    ensures var rest := Last(Split(s, ':')) + ['.'] + t;
            ParseGroups(Split(s + ['.'] + t, ':')) ==
            if IsQuad(rest) && |a.bytes| + 4 <= 16 then FillGap(a.(bytes := a.bytes + QuadBytes(rest))) else None
  {
    hide *;
    if IsQuad(Last(Split(s, ':')) + ['.'] + t) {
      QuadAtDot(s, t, a, val, sawXdigit);
    } else {
      NoQuadAtDot(s, t);
    }
  }

  /** At the end of the text the open group is nothing or a hex group. */
  lemma EndRead(s: string, a: Scan, val: nat, sawXdigit: bool)
    requires Scanned(s, a, val, sawXdigit)
    ensures ParseGroups(Split(s, ':')) ==
            if !sawXdigit then FillGap(a)
            else if |a.bytes| + 2 > 16 then None
            else FillGap(a.(bytes := a.bytes + WordBytes(val)))
  {
    var g := Last(Split(s, ':'));
    if IsQuad(g) {
      QuadChars(g);
    }
  }

  // ----- one turn of the scanning loop -----

  /** The loop stands at position i of the text after the leading colon, in a group that began at curtok. */
  ghost predicate Reading(body: string, i: nat, curtok: nat, a: Scan, val: nat, sawXdigit: bool) {
    && curtok <= i <= |body|
    && Scanned(body[..i], a, val, sawXdigit)
    && body[curtok..i] == Last(Split(body[..i], ':'))
  }

  lemma NothingRead(body: string)
    ensures Reading(body, 0, 0, Scan([], None), 0, false)
  {
    assert body[..0] == "";
  }

  lemma NextChar(body: string, i: nat)
    requires i < |body|
    ensures body[..i + 1] == body[..i] + [body[i]] && body == body[..i] + [body[i]] + body[i + 1..]
  {
  }

  lemma HexStep(body: string, i: nat, curtok: nat, a: Scan, val: nat, sawXdigit: bool)
    requires Reading(body, i, curtok, a, val, sawXdigit) && i < |body| && IsHexDigit(body[i])
    ensures var v := val * 16 + HexDigitVal(body[i]);
            if v > 0xffff then ParseGroups(Split(body, ':')) == None
            else Reading(body, i + 1, curtok, a, v, true)
  {
    hide Split;
    hide ScanGroups;
    hide ParseGroups;
    hide HexVal;
    var s, ch := body[..i], body[i];
    NextChar(body, i);
    HexRead(s, ch, a, val, sawXdigit);
    NoColonRead(s, ch);
    if val * 16 + HexDigitVal(ch) > 0xffff {
      OverflowRejected(s + [ch], body[i + 1..]);
    } else {
      assert body[curtok..i + 1] == body[curtok..i] + [ch];
    }
  }

  lemma NoDigitsNoValue(s: string, a: Scan, val: nat, sawXdigit: bool)
    requires Scanned(s, a, val, sawXdigit)
    ensures !sawXdigit ==> val == 0
  {
  }

  lemma ColonStep(body: string, i: nat, curtok: nat, a: Scan, val: nat, sawXdigit: bool)
    requires Reading(body, i, curtok, a, val, sawXdigit) && i < |body| && body[i] == ':'
    ensures !sawXdigit ==> val == 0
    ensures if (if sawXdigit then |a.bytes| + 2 > 16 else a.gap.Some?) then ParseGroups(Split(body, ':')) == None
            else
              Reading(body, i + 1, i + 1,
                      if sawXdigit then a.(bytes := a.bytes + WordBytes(val)) else a.(gap := Some(|a.bytes|)), 0, false)
  {
    hide Split;
    hide ScanGroups;
    hide ParseGroups;
    hide HexVal;
    var s := body[..i];
    NextChar(body, i);
    NoDigitsNoValue(s, a, val, sawXdigit);
    ColonRead(s, a, val, sawXdigit);
    SplitSnoc(s, ':', ':');
    assert body[i + 1..i + 1] == "";
    if if sawXdigit then |a.bytes| + 2 > 16 else a.gap.Some? {
      DeadGroups(s + [':'], body[i + 1..]);
    }
  }

  lemma DotStep(body: string, i: nat, curtok: nat, a: Scan, val: nat, sawXdigit: bool)
    requires Reading(body, i, curtok, a, val, sawXdigit) && i < |body| && body[i] == '.'
    ensures ParseGroups(Split(body, ':')) ==
            if IsQuad(body[curtok..]) && |a.bytes| + 4 <= 16
            then FillGap(a.(bytes := a.bytes + QuadBytes(body[curtok..])))
            else None
  {
    hide Split;
    hide ScanGroups;
    hide ParseGroups;
    hide IsQuad;
    hide QuadBytes;
    NextChar(body, i);
    DotRead(body[..i], body[i + 1..], a, val, sawXdigit);
    assert body[curtok..] == body[curtok..i] + ['.'] + body[i + 1..];
  }

  lemma StrangeStep(body: string, i: nat)
    requires i < |body| && !IsHexDigit(body[i]) && body[i] != ':' && body[i] != '.'
    ensures ParseGroups(Split(body, ':')) == None
  {
    NextChar(body, i);
    StrangeCharRejected(body[..i], body[i], body[i + 1..]);
  }

  lemma EndStep(body: string, curtok: nat, a: Scan, val: nat, sawXdigit: bool)
    requires Reading(body, |body|, curtok, a, val, sawXdigit)
    ensures ParseGroups(Split(body, ':')) ==
            if !sawXdigit then FillGap(a)
            else if |a.bytes| + 2 > 16 then None
            else FillGap(a.(bytes := a.bytes + WordBytes(val)))
  {
    hide Split;
    assert body[..|body|] == body;
    EndRead(body, a, val, sawXdigit);
  }

  // ----- the code -----

  /** Moves the bytes from k on to the end of the address, byte by byte from the right, leaving zeros. */
  method ShiftGap(tmp: array<Byte>, k: nat, tp: nat)
    requires tmp.Length == 16 && k <= tp <= 16
    requires forall j :: tp <= j < 16 ==> tmp[j] == 0
    modifies tmp
    ensures FillGap(Scan(old(tmp[..tp]), Some(k))) == Some(tmp[..])
  {
    ghost var was := tmp[..];
    var n := tp - k;
    var i := 1;
    while i <= n
      invariant 1 <= i <= n + 1
      invariant forall j :: 0 <= j < tp - i + 1 ==> tmp[j] == was[j]
      invariant tp < 16 ==> forall j :: 17 - i <= j < 16 ==> tmp[j] == was[j - (16 - tp)]
      invariant forall j :: tp - i + 1 <= j < (if tp < 16 then 17 - i else 16) ==> tmp[j] == 0
    {
      tmp[16 - i] := tmp[k + n - i];
      tmp[k + n - i] := 0;
      i := i + 1;
    }
    ShiftedIsFilled(was, tmp[..], k, tp);
  }

  lemma ShiftedIsFilled(was: seq<Byte>, now: seq<Byte>, k: nat, tp: nat)
    requires |was| == |now| == 16 && k <= tp <= 16
    requires forall j :: 0 <= j < k ==> now[j] == was[j]
    requires tp < 16 ==> forall j :: 16 - (tp - k) <= j < 16 ==> now[j] == was[j - (16 - tp)]
    requires forall j :: k <= j < (if tp < 16 then 16 - (tp - k) else 16) ==> now[j] == 0
    ensures FillGap(Scan(was[..tp], Some(k))) == Some(now)
  {
    if tp < 16 {
      assert now == was[..tp][..k] + Zeros(16 - tp) + was[..tp][k..];
    } else {
      assert now == was[..tp][..k] + Zeros(16 - k);
    }
  }

  /** Pads the collected bytes to a whole address. */
  ghost predicate Holds(tmp: seq<Byte>, a: Scan, tp: nat, colonp: Option<nat>) {
    && ScanOk(a) && |tmp| == 16 && tp == |a.bytes| && colonp == a.gap
    && tmp == a.bytes + Zeros(16 - tp)
  }

  lemma BytesStored(was: seq<Byte>, tmp: seq<Byte>, a: Scan, tp: nat, colonp: Option<nat>, more: seq<Byte>)
    requires Holds(was, a, tp, colonp) && tp + |more| <= 16
    requires tmp == was[..tp] + more + was[tp + |more|..]
    ensures Holds(tmp, a.(bytes := a.bytes + more), tp + |more|, colonp)
  {
  }

  /** Two bytes of a hex group, high byte first. */
  method StoreWord(tmp: array<Byte>, ghost a: Scan, tp: nat, colonp: Option<nat>, val: Word) returns (ghost b: Scan)
    requires Holds(tmp[..], a, tp, colonp) && tp + 2 <= 16
    modifies tmp
    ensures b == a.(bytes := a.bytes + WordBytes(val)) && Holds(tmp[..], b, tp + 2, colonp)
  {
    ghost var was := tmp[..];
    tmp[tp], tmp[tp + 1] := val / 256, val % 256;
    BytesStored(was, tmp[..], a, tp, colonp, WordBytes(val));
    b := a.(bytes := a.bytes + WordBytes(val));
  }

  /** A dotted quad that ends the text. */
  method StoreQuad(curtok: CString, tmp: array<Byte>, ghost a: Scan, tp: nat, colonp: Option<nat>)
      returns (ok: bool, ghost b: Scan)
    requires Holds(tmp[..], a, tp, colonp) && tp + 4 <= 16
    modifies tmp
    ensures ok == IsQuad(curtok)
    ensures ok ==> b == a.(bytes := a.bytes + QuadBytes(curtok)) && Holds(tmp[..], b, tp + 4, colonp)
  {
    ghost var was := tmp[..];
    b := a;
    ok := InetPton4(curtok, tmp, tp);
    if ok {
      BytesStored(was, tmp[..], a, tp, colonp, QuadBytes(curtok));
      b := a.(bytes := a.bytes + QuadBytes(curtok));
    }
  }

  method Finish(tmp: array<Byte>, ghost a: Scan, tp: nat, colonp: Option<nat>, dst: array<Byte>) returns (ok: bool)
    requires Holds(tmp[..], a, tp, colonp) && tmp != dst && dst.Length == 16
    modifies tmp, dst
    ensures ok == FillGap(a).Some?
    ensures dst[..] == if ok then FillGap(a).value else old(dst[..])
  {
    var end := tp;
    assert tmp[..tp] == a.bytes;
    if colonp.Some? {
      ShiftGap(tmp, colonp.value, tp);
      end := 16;
    }
    if end != 16 {
      return false;
    }
    assert tmp[..] == FillGap(a).value;
    forall i | 0 <= i < 16 {
      dst[i] := tmp[i];
    }
    return true;
  }

  method InetPton6(src: CString, dst: array<Byte>) returns (ok: bool)
    requires dst.Length == 16
    modifies dst
    ensures ok == Parse6(src).Some?
    ensures dst[..] == if ok then Parse6(src).value else old(dst[..])
  {
    hide Split;
    hide ParseGroups;
    hide FillGap;
    hide IsQuad;
    hide QuadBytes;
    hide Reading;
    var tmp := new Byte[16](_ => 0);
    var tp, colonp: Option<nat> := 0, None;
    if src != "" && src[0] == ':' && (|src| < 2 || src[1] != ':') {
      return false;
    }
    var body: CString := if src != "" && src[0] == ':' then src[1..] else src;
    var curtok, sawXdigit := 0, false;
    var val: nat := 0;
    ghost var a := Scan([], None);
    NothingRead(body);
    var i := 0;
    while i < |body|
      invariant 0 <= curtok <= i <= |body| && fresh(tmp) && val <= 0xffff
      invariant dst[..] == old(dst[..])
      invariant Holds(tmp[..], a, tp, colonp)
      invariant Reading(body, i, curtok, a, val, sawXdigit)
    {
      var ch := body[i];
      i := i + 1;
      if IsHexDigit(ch) {
        HexStep(body, i - 1, curtok, a, val, sawXdigit);
        val := val * 16 + HexDigitVal(ch);
        if val > 0xffff {
          return false;
        }
        sawXdigit := true;
        continue;
      }
      if ch == ':' {
        ColonStep(body, i - 1, curtok, a, val, sawXdigit);
        curtok := i;
        if !sawXdigit {
          if colonp.Some? {
            return false;
          }
          colonp := Some(tp);
          a := a.(gap := Some(|a.bytes|));
          continue;
        }
        if tp + 2 > 16 {
          return false;
        }
        a := StoreWord(tmp, a, tp, colonp, val);
        tp := tp + 2;
        sawXdigit := false;
        val := 0;
        continue;
      }
      if ch == '.' {
        DotStep(body, i - 1, curtok, a, val, sawXdigit);
        if tp + 4 <= 16 {
          var quad, b := StoreQuad(body[curtok..], tmp, a, tp, colonp);
          if quad {
            ok := Finish(tmp, b, tp + 4, colonp, dst);
            return;
          }
        }
        return false;
      }
      StrangeStep(body, i - 1);
      return false;
    }
    EndStep(body, curtok, a, val, sawXdigit);
    if sawXdigit {
      if tp + 2 > 16 {
        return false;
      }
      a := StoreWord(tmp, a, tp, colonp, val);
      tp := tp + 2;
    }
    ok := Finish(tmp, a, tp, colonp, dst);
  }
}
