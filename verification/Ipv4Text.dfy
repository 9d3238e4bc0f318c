/** What the dotted-decimal text of an IPv4 address means, and how it is printed. */
module Ipv4Text {
  import opened Text

  function DigitVal(c: char): nat
    requires IsDigit(c)
  {
    c as int - '0' as int
  }

  predicate AllDigits(s: string) { forall i :: 0 <= i < |s| ==> IsDigit(s[i]) }

  function DecVal(s: string): nat
    requires AllDigits(s)
  {
    if s == "" then 0 else 10 * DecVal(Front(s)) + DigitVal(Last(s))
  }

  /** A piece of digits worth at most 255, possibly still empty. */
  predicate OpenOctet(p: string) { AllDigits(p) && DecVal(p) <= 255 }

  /** A whole decimal group: not empty, any number of leading zeros. */
  predicate OctetText(p: string) { p != "" && OpenOctet(p) }

  /** Exactly four groups separated by dots. */
  predicate IsQuad(s: string)
  {
    var parts := Split(s, '.');
    |parts| == 4 && forall i :: 0 <= i < 4 ==> OctetText(parts[i])
  }

  function QuadBytes(s: string): (r: seq<Byte>)
    requires IsQuad(s)
  {
    var parts := Split(s, '.');
    [DecVal(parts[0]), DecVal(parts[1]), DecVal(parts[2]), DecVal(parts[3])]
  }

  /** No string that starts like this can become a dotted quad. */
  predicate Hopeless(parts: seq<string>)
    requires parts != []
  {
    || |parts| > 4
    || !OpenOctet(Last(parts))
    || exists i :: 0 <= i < |parts| - 1 && !OctetText(parts[i])
  }

  lemma {:induction false} DecValGrows(p: string, q: string)
    requires p <= q && AllDigits(q)
    ensures AllDigits(p) && DecVal(p) <= DecVal(q)
  {
    if p != q {
      assert p <= Front(q);
      DecValGrows(p, Front(q));
    }
  }

  lemma HopelessIsFinal(s: string, t: string)
    requires Hopeless(Split(s, '.'))
    ensures !IsQuad(s + t)
  {
    SplitExtends(s, t, '.');
    var p, q := Split(s, '.'), Split(s + t, '.');
    if IsQuad(s + t) {
      var k := |p| - 1;
      forall i | 0 <= i < |p| - 1 ensures OctetText(p[i]) {
        assert p[i] == Front(p)[i] == q[i];
      }
      assert OctetText(q[k]);
      DecValGrows(Last(p), q[k]);
    }
  }

  // ----- printing -----

  function DigitChar(d: nat): (c: char)
    requires d < 10
    ensures c == "0123456789"[d]
  {
    '0' + d as char
  }

  /** What printf's %u writes. */
  function DecText(n: nat): (s: string)
    ensures s != "" && AllDigits(s)
  {
    if n < 10 then [DigitChar(n)] else DecText(n / 10) + [DigitChar(n % 10)]
  }

  function QuadText(b: seq<Byte>): string
    requires |b| == 4
  {
    DecText(b[0]) + "." + DecText(b[1]) + "." + DecText(b[2]) + "." + DecText(b[3])
  }

  lemma {:induction false} DecValText(n: nat)
    ensures DecVal(DecText(n)) == n
  {
    if n >= 10 {
      DecValText(n / 10);
      assert Front(DecText(n)) == DecText(n / 10);
    }
  }

  lemma ByteTextIsShort(n: Byte)
    ensures |DecText(n)| <= 3
  {
    if n >= 10 {
      var m := n / 10;
      assert |DecText(n)| == |DecText(m)| + 1;
      if m >= 10 {
        assert m / 10 < 10;
        assert |DecText(m)| == |DecText(m / 10)| + 1;
      }
    }
  }

  lemma DigitsHoldNo(s: string, c: char)
    requires AllDigits(s) && !IsDigit(c)
    ensures c !in s
  {
  }

  lemma JoinFour(a: string, b: string, c: string, d: string)
    ensures Join([a, b, c, d], '.') == a + "." + b + "." + c + "." + d
  {
    assert Front([a, b, c, d]) == [a, b, c] && Front([a, b, c]) == [a, b] && Front([a, b]) == [a];
    assert Join([a, b], '.') == a + "." + b;
  }

  lemma QuadTextSplit(b: seq<Byte>)
    requires |b| == 4
    ensures Split(QuadText(b), '.') == [DecText(b[0]), DecText(b[1]), DecText(b[2]), DecText(b[3])]
    ensures |QuadText(b)| <= 15
    ensures forall i :: 0 <= i < |QuadText(b)| ==> IsDigit(QuadText(b)[i]) || QuadText(b)[i] == '.'
  {
    hide Split;
    hide Join;
    hide DecText;
    var x, y, z, t := DecText(b[0]), DecText(b[1]), DecText(b[2]), DecText(b[3]);
    DigitsHoldNo(x, '.');
    DigitsHoldNo(y, '.');
    DigitsHoldNo(z, '.');
    DigitsHoldNo(t, '.');
    SplitJoin([x, y, z, t], '.');
    JoinFour(x, y, z, t);
    ByteTextIsShort(b[0]);
    ByteTextIsShort(b[1]);
    ByteTextIsShort(b[2]);
    ByteTextIsShort(b[3]);
  }

  /** Every IPv4 address printed is a dotted quad that means the same address. */
  lemma PrintParse4(b: seq<Byte>)
    requires |b| == 4
    ensures IsQuad(QuadText(b)) && QuadBytes(QuadText(b)) == b
  {
    QuadTextSplit(b);
    DecValText(b[0]);
    DecValText(b[1]);
    DecValText(b[2]);
    DecValText(b[3]);
  }

  // ----- all spellings of a number and of an address -----

  lemma {:induction false} DecValLead(p: string, q: string)
    requires AllDigits(p) && AllDigits(q) && DecVal(p) == 0
    ensures AllDigits(p + q) && DecVal(p + q) == DecVal(q)
  {
    if q == "" {
      assert p + q == p;
    } else {
      DecValLead(p, Front(q));
      AppendLast(p, q);
    }
  }

  lemma {:induction false} ZerosAreZero(z: nat)
    ensures AllDigits(Repeat('0', z)) && DecVal(Repeat('0', z)) == 0
  {
    if z > 0 {
      ZerosAreZero(z - 1);
      assert Front(Repeat('0', z)) == Repeat('0', z - 1);
    }
  }

  lemma {:induction false} LeadingZeros(p: string) returns (z: nat)
    requires AllDigits(p) && p != ""
    ensures p == Repeat('0', z) + DecText(DecVal(p))
  {
    var n, d := DecVal(p), DigitVal(Last(p));
    assert p == Front(p) + [Last(p)] && Last(p) == DigitChar(d);
    if |p| == 1 {
      z := 0;
      assert Front(p) == "" && p == [DigitChar(d)];
      assert Repeat('0', 0) + p == p;
    } else {
      var m := DecVal(Front(p));
      z := LeadingZeros(Front(p));
      if m == 0 {
        assert Repeat('0', z) + "0" == Repeat('0', z + 1);
        z := z + 1;
      } else {
        assert n / 10 == m && n % 10 == d;
        assert Repeat('0', z) + DecText(m) + [DigitChar(d)] == Repeat('0', z) + (DecText(m) + [DigitChar(d)]);
      }
    }
  }

  /** The digits worth n are exactly the printed form of n behind any number of zeros. */
  lemma NumberSpelling(p: string, n: nat)
    ensures p != "" && AllDigits(p) && DecVal(p) == n <==> exists z :: p == Repeat('0', z) + DecText(n)
  {
    if p != "" && AllDigits(p) && DecVal(p) == n {
      var z := LeadingZeros(p);
    }
    forall z | p == Repeat('0', z) + DecText(n) ensures AllDigits(p) && DecVal(p) == n {
      ZerosAreZero(z);
      DecValText(n);
      DecValLead(Repeat('0', z), DecText(n));
    }
  }

  /** The text of an address with so many more zeros before each number. */
  function PaddedQuad(b: seq<Byte>, zs: seq<nat>): string
    requires |b| == |zs| == 4
  {
    Repeat('0', zs[0]) + DecText(b[0]) + "." + (Repeat('0', zs[1]) + DecText(b[1])) + "."
    + (Repeat('0', zs[2]) + DecText(b[2])) + "." + (Repeat('0', zs[3]) + DecText(b[3]))
  }

  /** A dotted quad means an address exactly when it is that address as printed, but for zeros in front of numbers. */
  lemma QuadSpelling(s: string, b: seq<Byte>)
    requires |b| == 4
    ensures IsQuad(s) && QuadBytes(s) == b <==> exists zs :: |zs| == 4 && s == PaddedQuad(b, zs)
  {
    hide Split;
    hide DecText;
    hide Join;
    if IsQuad(s) && QuadBytes(s) == b {
      var p := Split(s, '.');
      assert forall i :: 0 <= i < 4 ==> OctetText(p[i]);
      var z0 := LeadingZeros(p[0]);
      var z1 := LeadingZeros(p[1]);
      var z2 := LeadingZeros(p[2]);
      var z3 := LeadingZeros(p[3]);
      JoinSplit(s, '.');
      JoinFour(p[0], p[1], p[2], p[3]);
      assert p == [p[0], p[1], p[2], p[3]];
      assert s == PaddedQuad(b, [z0, z1, z2, z3]);
    }
    forall zs | |zs| == 4 && s == PaddedQuad(b, zs) ensures IsQuad(s) && QuadBytes(s) == b {
      PaddedIsQuad(b, zs);
    }
  }

  lemma PaddedIsQuad(b: seq<Byte>, zs: seq<nat>)
    requires |b| == |zs| == 4
    ensures IsQuad(PaddedQuad(b, zs)) && QuadBytes(PaddedQuad(b, zs)) == b
  {
    hide Split;
    hide DecText;
    hide Join;
    var p := seq(4, i requires 0 <= i < 4 => Repeat('0', zs[i]) + DecText(b[i]));
    forall i | 0 <= i < 4 ensures OctetText(p[i]) && DecVal(p[i]) == b[i] && '.' !in p[i] {
      NumberSpelling(p[i], b[i]);
      DigitsHoldNo(p[i], '.');
    }
    SplitJoin(p, '.');
    JoinFour(p[0], p[1], p[2], p[3]);
    assert p == [p[0], p[1], p[2], p[3]];
  }
}
