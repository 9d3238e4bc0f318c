/** inet_aton: the older, laxer IPv4 parser, compared with inet_pton4. */
module Aton {
  import opened Text
  import opened Ipv4Text

  /** u_long holds 32 or 64 bits; its arithmetic wraps. */
  type ULongRange = m: int | m == 0x1_0000_0000 || m == 0x1_0000_0000_0000_0000 witness 0x1_0000_0000

  /** At most four pieces of digits, perhaps empty, each worth at most 255 after the wrap. */
  predicate Accepts(s: string, m: ULongRange) {
    var parts := Split(s, '.');
    |parts| <= 4 && forall i :: 0 <= i < |parts| ==> Lax(parts[i], m)
  }

  predicate Lax(p: string, m: ULongRange) { AllDigits(p) && DecVal(p) % m <= 255 }

  /** Missing trailing pieces count as zero. */
  function AddressBytes(s: string, m: ULongRange): seq<Byte>
    requires Accepts(s, m)
  {
    var parts := Split(s, '.');
    seq(4, i requires 0 <= i < 4 => if i < |parts| then DecVal(parts[i]) % m else 0)
  }

  function BigEndian(b: seq<nat>): nat {
    if b == [] then 0 else 256 * BigEndian(Front(b)) + Last(b)
  }

  function PieceValue(p: string, m: ULongRange): nat { if AllDigits(p) then DecVal(p) % m else 0 }

  function Values(parts: seq<string>, m: ULongRange): (r: seq<nat>)
    ensures |r| == |parts|
  {
    seq(|parts|, i requires 0 <= i < |parts| => PieceValue(parts[i], m))
  }

  lemma WrapStep(x: nat, d: nat, m: ULongRange)
    ensures (x % m * 10 + d) % m == (10 * x + d) % m
  {
    if m == 0x1_0000_0000 {
      WrapMultiples(x % 0x1_0000_0000 * 10 + d, 10 * (x / 0x1_0000_0000));
    } else {
      WrapLongMultiples(x % 0x1_0000_0000_0000_0000 * 10 + d, 10 * (x / 0x1_0000_0000_0000_0000));
    }
  }

  lemma {:induction false} WrapMultiples(y: nat, k: nat)
    ensures (y + 0x1_0000_0000 * k) % 0x1_0000_0000 == y % 0x1_0000_0000
    decreases k
  {
    if k > 0 {
      WrapMultiples(y + 0x1_0000_0000, k - 1);
    }
  }

  lemma {:induction false} WrapLongMultiples(y: nat, k: nat)
    ensures (y + 0x1_0000_0000_0000_0000 * k) % 0x1_0000_0000_0000_0000 == y % 0x1_0000_0000_0000_0000
    decreases k
  {
    if k > 0 {
      WrapLongMultiples(y + 0x1_0000_0000_0000_0000, k - 1);
    }
  }

  /** The locals of inet_aton against the pieces read so far. */
  ghost predicate Scanned(parts: seq<string>, m: ULongRange, dots: int, acc: int, addr: int) {
    && 0 <= dots < 4 && |parts| == dots + 1
    && (forall i :: 0 <= i < dots ==> Lax(parts[i], m))
    && AllDigits(parts[dots])
    && acc == DecVal(parts[dots]) % m
    && addr == BigEndian(Values(parts[..dots], m))
  }

  lemma PieceDigit(p: string, ch: char, m: ULongRange)
    requires AllDigits(p) && IsDigit(ch)
    ensures AllDigits(p + [ch]) && DecVal(p + [ch]) % m == (DecVal(p) % m * 10 + DigitVal(ch)) % m
  {
    assert Front(p + [ch]) == p;
    WrapStep(DecVal(p), DigitVal(ch), m);
  }

  lemma DigitExtends(parts: seq<string>, ch: char, m: ULongRange, dots: int, acc: int, addr: int)
    requires Scanned(parts, m, dots, acc, addr) && IsDigit(ch)
    ensures Scanned(Front(parts) + [Last(parts) + [ch]], m, dots, (acc * 10 + DigitVal(ch)) % m, addr)
  {
    PieceDigit(Last(parts), ch, m);
    var next := Front(parts) + [Last(parts) + [ch]];
    assert next[..dots] == parts[..dots] == Front(parts);
    assert forall i :: 0 <= i < dots ==> next[i] == parts[i];
  }

  lemma DigitRead(s: string, ch: char, m: ULongRange, dots: int, acc: int, addr: int)
    requires Scanned(Split(s, '.'), m, dots, acc, addr) && IsDigit(ch)
    ensures Scanned(Split(s + [ch], '.'), m, dots, (acc * 10 + DigitVal(ch)) % m, addr)
  {
    SplitSnoc(s, ch, '.');
    DigitExtends(Split(s, '.'), ch, m, dots, acc, addr);
  }

  lemma PieceClosed(parts: seq<string>, m: ULongRange, dots: int, acc: int, addr: int)
    requires Scanned(parts, m, dots, acc, addr) && acc <= 255
    ensures (forall i :: 0 <= i < |parts| ==> Lax(parts[i], m))
    ensures addr * 256 + acc == BigEndian(Values(parts, m))
  {
    assert Front(Values(parts, m)) == Values(parts[..dots], m);
    assert Last(Values(parts, m)) == acc;
  }

  lemma DotCloses(parts: seq<string>, m: ULongRange, dots: int, acc: int, addr: int)
    requires Scanned(parts, m, dots, acc, addr)
    ensures var next := parts + [""];
            if dots == 3 then |next| > 4
            else if acc > 255 then !Lax(next[dots], m)
            else Scanned(next, m, dots + 1, 0, addr * 256 + acc)
  {
    assert (parts + [""])[..dots + 1] == parts;
    if dots < 3 && acc <= 255 {
      PieceClosed(parts, m, dots, acc, addr);
    }
  }

  lemma DotRead(s: string, m: ULongRange, dots: int, acc: int, addr: int)
    requires Scanned(Split(s, '.'), m, dots, acc, addr)
    ensures var next := Split(s + ['.'], '.');
            if dots == 3 then |next| > 4
            else if acc > 255 then |next| == dots + 2 && !Lax(next[dots], m)
            else Scanned(next, m, dots + 1, 0, addr * 256 + acc)
  {
    SplitSnoc(s, '.', '.');
    DotCloses(Split(s, '.'), m, dots, acc, addr);
  }

  lemma OtherRead(s: string, ch: char)
    requires !IsDigit(ch) && ch != '.'
    ensures !AllDigits(Last(Split(s + [ch], '.')))
  {
    SplitSnoc(s, ch, '.');
    var p := Last(Split(s + [ch], '.'));
    assert p[|p| - 1] == ch;
  }

  lemma AcceptedPrefix(s: string, t: string, m: ULongRange)
    requires Accepts(s + t, m)
    ensures var p := Split(s, '.');
            |p| <= 4 && (forall i :: 0 <= i < |p| - 1 ==> Lax(p[i], m)) && AllDigits(Last(p))
  {
    SplitExtends(s, t, '.');
    var p, q := Split(s, '.'), Split(s + t, '.');
    forall i | 0 <= i < |p| - 1 ensures Lax(p[i], m) {
      assert p[i] == Front(p)[i] == q[i];
    }
    assert Lax(q[|p| - 1], m);
  }

  lemma RejectedForGood(s: string, t: string, m: ULongRange)
    requires var p := Split(s, '.');
             || |p| > 4
             || (exists i :: 0 <= i < |p| - 1 && !Lax(p[i], m))
             || !AllDigits(Last(p))
    ensures !Accepts(s + t, m)
  {
    if Accepts(s + t, m) {
      AcceptedPrefix(s, t, m);
    }
  }

  lemma FourBytes(a: nat, b: nat, c: nat, d: nat)
    ensures BigEndian([a, b, c, d]) == ((a * 256 + b) * 256 + c) * 256 + d
  {
    hide BigEndian;
    BigEndianSnoc([], a);
    BigEndianSnoc([a], b);
    BigEndianSnoc([a, b], c);
    BigEndianSnoc([a, b, c], d);
    assert [] + [a] == [a] && [a] + [b] == [a, b] && [a, b] + [c] == [a, b, c] && [a, b, c] + [d] == [a, b, c, d];
  }

  lemma BigEndianSnoc(b: seq<nat>, x: nat)
    ensures BigEndian(b + [x]) == 256 * BigEndian(b) + x
    ensures BigEndian([]) == 0
  {
    assert Front(b + [x]) == b;
  }

  function Shl8(x: nat, times: nat): nat
    decreases times
  {
    if times == 0 then x else Shl8(x * 256, times - 1)
  }

  lemma {:induction false} ZeroPad(b: seq<nat>, n: nat)
    ensures BigEndian(b + Zeros(n)) == Shl8(BigEndian(b), n)
    decreases n
  {
    if n == 0 {
      assert b + Zeros(0) == b;
    } else {
      assert Front(b + [0]) == b;
      ZeroPad(b + [0], n - 1);
      assert b + Zeros(n) == b + [0] + Zeros(n - 1);
    }
  }

  /** The four bytes htonl stores. */
  function NetworkBytes(addr: nat): (r: seq<Byte>)
    requires addr < 0x1_0000_0000
  {
    [addr / 0x100_0000, addr / 0x1_0000 % 256, addr / 256 % 256, addr % 256]
  }

  lemma NetworkBytesOf(a: Byte, b: Byte, c: Byte, d: Byte)
    ensures BigEndian([a, b, c, d]) < 0x1_0000_0000
    ensures NetworkBytes(BigEndian([a, b, c, d])) == [a, b, c, d]
  {
    FourBytes(a, b, c, d);
    var n := BigEndian([a, b, c, d]);
    var ab: int := (a as int) * 256 + b;
    var abc: int := ab * 256 + c;
    assert n == abc * 256 + d;
    assert n / 256 == abc;
    assert n / 0x1_0000 == ab by { assert n == ab * 0x1_0000 + ((c as int) * 256 + d); }
    assert n / 0x100_0000 == a by { assert n == (a as int) * 0x100_0000 + (((b as int) * 256 + c) * 256 + d); }
  }

  lemma Finish(s: string, m: ULongRange, dots: nat, addr: nat)
    requires Accepts(s, m) && dots + 1 == |Split(s, '.')| && addr == BigEndian(Values(Split(s, '.'), m))
    ensures Shl8(addr, 3 - dots) < 0x1_0000_0000
    ensures NetworkBytes(Shl8(addr, 3 - dots)) == AddressBytes(s, m)
  {
    var vals := Values(Split(s, '.'), m);
    assert AddressBytes(s, m) == vals + Zeros(3 - dots);
    ZeroPad(vals, 3 - dots);
    var b := AddressBytes(s, m);
    NetworkBytesOf(b[0], b[1], b[2], b[3]);
    assert b == [b[0], b[1], b[2], b[3]];
  }

  /** The whole string has been read and accepted. */
  ghost predicate AllRead(s: string, m: ULongRange, dots: int, addr: int) {
    Accepts(s, m) && dots == |Split(s, '.')| - 1 && addr == BigEndian(Values(Split(s, '.'), m))
  }

  method InetAton(cp: CString, m: ULongRange) returns (r: Option<seq<Byte>>)
    ensures r == if Accepts(cp, m) then Some(AddressBytes(cp, m)) else None
  {
    var dots, acc, addr := 0, 0, 0;
    var i := 0;
    var more := true;
    while more
      invariant 0 <= i <= |cp| + 1 && more == (i <= |cp|)
      invariant more ==> Scanned(Split(cp[..i], '.'), m, dots, acc, addr)
      invariant !more ==> AllRead(cp, m, dots, addr)
      decreases |cp| + 1 - i
    {
      ghost var s := cp[..i];
      var cc := if i < |cp| then cp[i] else '\0';
      if cc == '\0' {
        assert i == |cp| && s == cp;
        if acc > 255 {
          assert !Lax(Split(s, '.')[dots], m);
          return None;
        }
        PieceClosed(Split(s, '.'), m, dots, acc, addr);
        addr := addr * 256 + acc;
        acc := 0;
      } else {
        assert cp[..i + 1] == s + [cc] && cp == (s + [cc]) + cp[i + 1..];
        if IsDigit(cc) {
          DigitRead(s, cc, m, dots, acc, addr);
          acc := (acc * 10 + DigitVal(cc)) % m;
        } else if cc == '.' {
          DotRead(s, m, dots, acc, addr);
          dots := dots + 1;
          if dots > 3 || acc > 255 {
            RejectedForGood(s + [cc], cp[i + 1..], m);
            return None;
          }
          addr := addr * 256 + acc;
          acc := 0;
        } else {
          OtherRead(s, cc);
          RejectedForGood(s + [cc], cp[i + 1..], m);
          return None;
        }
      }
      i := i + 1;
      more := cc != '\0';
    }
    Finish(cp, m, dots, addr);
    if dots < 3 {
      addr := Shl8(addr, 3 - dots);
    }
    return Some(NetworkBytes(addr));
  }

  /** On every dotted quad both parsers succeed with the same address. */
  lemma AtonAgreesWithPton4(s: string, m: ULongRange)
    requires IsQuad(s)
    ensures Accepts(s, m) && AddressBytes(s, m) == QuadBytes(s)
  {
    hide Split;
    hide DecVal;
    hide AllDigits;
    var parts := Split(s, '.');
    forall i | 0 <= i < 4 ensures Lax(parts[i], m) && DecVal(parts[i]) % m == DecVal(parts[i]) {
      assert OctetText(parts[i]);
    }
    assert AddressBytes(s, m) == QuadBytes(s);
  }

  /** What inet_aton takes beyond inet_pton4: fewer or empty pieces, and wrapped numbers. */
  lemma AtonBeyondPton4(s: string, m: ULongRange)
    requires Accepts(s, m)
    ensures IsQuad(s) <==> var parts := Split(s, '.');
                           |parts| == 4 && forall i :: 0 <= i < 4 ==> parts[i] != "" && DecVal(parts[i]) < m
  {
    var parts := Split(s, '.');
    forall i | 0 <= i < |parts| ensures OctetText(parts[i]) <==> parts[i] != "" && DecVal(parts[i]) < m {
      assert Lax(parts[i], m);
    }
  }

  /** A piece written anew: its number as it is after the wrap, without superfluous zeros, "0" for an empty one. */
  function Rewritten(p: string, m: ULongRange): (r: string)
    ensures r != ""
  {
    if AllDigits(p) then DecText(DecVal(p) % m) else "?"
  }

  /** All four pieces written anew, "0" for those that are missing. */
  function FourRewritten(parts: seq<string>, m: ULongRange): seq<string> {
    seq(4, i requires 0 <= i < 4 => if i < |parts| then Rewritten(parts[i], m) else "0")
  }

  lemma RewrittenPiece(p: string, m: ULongRange)
    ensures OctetText(Rewritten(p, m)) <==> Lax(p, m)
    ensures Lax(p, m) ==> DecVal(Rewritten(p, m)) == DecVal(p) % m
    ensures '.' !in Rewritten(p, m)
  {
    hide DecText;
    if AllDigits(p) {
      DecValText(DecVal(p) % m);
      DigitsHoldNo(Rewritten(p, m), '.');
    }
  }

  lemma ZeroPiece()
    ensures OctetText("0") && DecVal("0") == 0
  {
    assert Front("0") == "";
  }

  /** inet_aton accepts a string exactly when it has at most four pieces and inet_pton4 accepts the same numbers,
      wrapped and filled up with zeros, and then with that very address. */
  lemma AtonReduces(s: string, m: ULongRange)
    ensures var parts := Split(s, '.'); var quad := Join(FourRewritten(parts, m), '.');
            && (Accepts(s, m) <==> |parts| <= 4 && IsQuad(quad))
            && (Accepts(s, m) ==> AddressBytes(s, m) == QuadBytes(quad))
  {
    hide Split;
    hide Rewritten;
    hide Lax;
    hide DecVal;
    var parts := Split(s, '.');
    var four := FourRewritten(parts, m);
    ZeroPiece();
    forall i | 0 <= i < 4
      ensures '.' !in four[i]
      ensures OctetText(four[i]) <==> i >= |parts| || Lax(parts[i], m)
      ensures i < |parts| && Lax(parts[i], m) ==> AllDigits(parts[i]) && DecVal(four[i]) == DecVal(parts[i]) % m
    {
      if i < |parts| {
        RewrittenPiece(parts[i], m);
        LaxDigits(parts[i], m);
      }
    }
    SplitJoin(four, '.');
  }

  lemma LaxDigits(p: string, m: ULongRange)
    ensures Lax(p, m) ==> AllDigits(p)
  {
  }
}
