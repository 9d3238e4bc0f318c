/** How hexadecimal groups may be spelled, and which spelling inet_ntop6 chooses: that of RFC 5952. */
module Ipv6Canonical {
  import opened Text
  import opened Ipv4Text
  import opened Ipv6Text
  import opened Ipv6Words
  import opened Ipv6Grammar

  // ----- upper and lower case -----

  function LowerChar(c: char): char { if 'A' <= c <= 'F' then c - 'A' + 'a' else c }

  function Lower(s: string): (r: string)
    ensures |r| == |s| && forall i :: 0 <= i < |s| ==> r[i] == LowerChar(s[i])
  {
    seq(|s|, i requires 0 <= i < |s| => LowerChar(s[i]))
  }

  function LowerAll(gs: seq<string>): (r: seq<string>)
    ensures |r| == |gs| && forall i :: 0 <= i < |gs| ==> r[i] == Lower(gs[i])
  {
    seq(|gs|, i requires 0 <= i < |gs| => Lower(gs[i]))
  }

  lemma LowerDigit(c: char)
    ensures IsHexDigit(LowerChar(c)) <==> IsHexDigit(c)
    ensures IsHexDigit(c) ==> HexDigitVal(LowerChar(c)) == HexDigitVal(c)
    ensures IsDigit(LowerChar(c)) <==> IsDigit(c)
    ensures IsDigit(c) ==> LowerChar(c) == c
    ensures c in {':', '.'} <==> LowerChar(c) in {':', '.'}
    ensures c in {':', '.'} ==> LowerChar(c) == c
  {
  }

  lemma LowerParts(s: string)
    requires s != ""
    ensures Front(Lower(s)) == Lower(Front(s)) && Last(Lower(s)) == LowerChar(Last(s))
  {
  }

  lemma LowerConcat(s: string, t: string)
    ensures Lower(s + t) == Lower(s) + Lower(t)
  {
  }

  lemma {:induction false} LowerSplit(s: string, sep: char)
    requires sep in {':', '.'}
    ensures Split(Lower(s), sep) == LowerAll(Split(s, sep))
  {
    hide Split;
    if s == "" {
      SplitEmpty(sep);
      assert Lower("") == "";
      assert LowerAll([""]) == [""];
    } else {
      var t, c := Front(s), Last(s);
      LowerSplit(t, sep);
      LowerParts(s);
      LowerDigit(c);
      SplitSnoc(t, c, sep);
      SplitSnoc(Lower(t), LowerChar(c), sep);
      assert s == t + [c] && Lower(s) == Lower(t) + [LowerChar(c)];
      hide LowerChar;
      LowerGrown(Split(t, sep), c);
      if c != sep {
        OnlyItself(c, sep);
      }
    }
  }

  lemma LowerGrown(p: seq<string>, c: char)
    requires p != []
    ensures LowerAll(p) != [] && LowerAll(p + [""]) == LowerAll(p) + [""]
    ensures LowerAll(Front(p) + [Last(p) + [c]]) == Front(LowerAll(p)) + [Last(LowerAll(p)) + [LowerChar(c)]]
  {
    hide LowerChar;
    LowerConcat(Last(p), [c]);
    assert Lower([c]) == [LowerChar(c)];
    assert Lower("") == "";
  }

  lemma OnlyItself(c: char, sep: char)
    requires sep in {':', '.'} && c != sep
    ensures LowerChar(c) != sep
  {
  }

  lemma {:induction false} LowerHex(g: string)
    ensures AllHex(Lower(g)) <==> AllHex(g)
    ensures AllHex(g) ==> HexVal(Lower(g)) == HexVal(g)
  {
    forall i | 0 <= i < |g| ensures IsHexDigit(Lower(g)[i]) <==> IsHexDigit(g[i]) {
      LowerDigit(g[i]);
    }
    if AllHex(g) && g != "" {
      LowerHex(Front(g));
      LowerParts(g);
      LowerDigit(Last(g));
    }
  }

  lemma LowerDecimal(p: string)
    ensures OctetText(Lower(p)) <==> OctetText(p)
    ensures AllDigits(p) ==> Lower(p) == p
  {
    forall i | 0 <= i < |p| ensures IsDigit(Lower(p)[i]) <==> IsDigit(p[i]) {
      LowerDigit(p[i]);
    }
    if AllDigits(p) {
      forall i | 0 <= i < |p| ensures Lower(p)[i] == p[i] {
        LowerDigit(p[i]);
      }
      assert Lower(p) == p;
    }
  }

  lemma LowerQuad(g: string)
    ensures IsQuad(Lower(g)) <==> IsQuad(g)
    ensures IsQuad(g) ==> QuadBytes(Lower(g)) == QuadBytes(g)
  {
    hide Split;
    hide DecVal;
    LowerSplit(g, '.');
    var p := Split(g, '.');
    forall i | 0 <= i < |p|
      ensures OctetText(Lower(p[i])) <==> OctetText(p[i])
      ensures OctetText(p[i]) ==> Lower(p[i]) == p[i]
    {
      LowerDecimal(p[i]);
    }
  }

  lemma LowerGroup(g: string)
    ensures HexGroup(Lower(g)) <==> HexGroup(g)
    ensures HexGroup(g) ==> HexVal(Lower(g)) == HexVal(g)
  {
    LowerHex(g);
  }

  lemma LowerAdd(a: Scan, g: string)
    ensures AddGroup(a, Lower(g)) == AddGroup(a, g) && AddLast(a, Lower(g)) == AddLast(a, g)
  {
    hide IsQuad;
    hide QuadBytes;
    LowerGroup(g);
    LowerQuad(g);
    hide HexGroup;
  }

  lemma {:induction false} LowerScan(gs: seq<string>)
    ensures ScanGroups(LowerAll(gs)) == ScanGroups(gs)
  {
    hide AddGroup;
    if gs != [] {
      LowerScan(Front(gs));
      assert Front(LowerAll(gs)) == LowerAll(Front(gs));
      assert Last(LowerAll(gs)) == Lower(Last(gs));
      if ScanGroups(Front(gs)).Some? {
        LowerAdd(ScanGroups(Front(gs)).value, Last(gs));
      }
    } else {
      assert LowerAll([]) == [];
    }
  }

  lemma LowerGroups(gs: seq<string>)
    requires gs != []
    ensures ParseGroups(LowerAll(gs)) == ParseGroups(gs)
  {
    hide AddLast;
    hide FillGap;
    LowerScan(Front(gs));
    assert Front(LowerAll(gs)) == LowerAll(Front(gs));
    assert Last(LowerAll(gs)) == Lower(Last(gs));
    if ScanGroups(Front(gs)).Some? {
      LowerAdd(ScanGroups(Front(gs)).value, Last(gs));
    }
  }

  /** Case does not matter, in any text. */
  lemma CaseIgnored(s: string)
    ensures Parse6(Lower(s)) == Parse6(s)
  {
    hide ParseGroups;
    hide Split;
    LowerStart(s);
    LowerSplit(Body(s), ':');
    LowerGroups(Split(Body(s), ':'));
  }

  lemma LowerStart(s: string)
    ensures BadStart(Lower(s)) <==> BadStart(s)
    ensures Body(Lower(s)) == Lower(Body(s))
  {
    forall i | 0 <= i < |s| ensures Lower(s)[i] == ':' <==> s[i] == ':' {
      LowerDigit(s[i]);
    }
    if s != "" && s[0] == ':' {
      assert Lower(s)[1..] == Lower(s[1..]);
    }
  }

  // ----- all spellings of a group -----

  lemma {:induction false} HexValLead(p: string, q: string)
    requires AllHex(p) && AllHex(q) && HexVal(p) == 0
    ensures AllHex(p + q) && HexVal(p + q) == HexVal(q)
  {
    if q == "" {
      assert p + q == p;
    } else {
      HexValLead(p, Front(q));
      AppendLast(p, q);
    }
  }

  lemma {:induction false} HexZeros(z: nat)
    ensures AllHex(Repeat('0', z)) && HexVal(Repeat('0', z)) == 0
  {
    if z > 0 {
      HexZeros(z - 1);
      assert Front(Repeat('0', z)) == Repeat('0', z - 1);
    }
  }

  lemma LowerIsChar(c: char)
    requires IsHexDigit(c)
    ensures LowerChar(c) == HexChar(HexDigitVal(c))
  {
  }

  lemma HexTextGrows(m: nat, d: nat)
    requires d < 16
    ensures HexText(d) == [HexChar(d)] && (m > 0 ==> HexText(16 * m + d) == HexText(m) + [HexChar(d)])
  {
    assert (16 * m + d) / 16 == m && (16 * m + d) % 16 == d;
  }

  lemma LowerDigits(g: string)
    requires AllHex(g) && g != ""
    ensures Lower(g) == Lower(Front(g)) + HexText(HexDigitVal(Last(g)))
    ensures HexVal(g) == 16 * HexVal(Front(g)) + HexDigitVal(Last(g))
    ensures |g| == 1 ==> Lower(g) == HexText(HexVal(g))
  {
    hide *;
    HexValStep(g);
    LowerParts(g);
    assert Lower(g) != [];
    LowerIsChar(Last(g));
    HexTextGrows(0, HexDigitVal(Last(g)));
    Parts(Lower(g));
    if |g| == 1 {
      Parts(g);
      NoDigits(Front(g));
      assert "" + HexText(HexVal(g)) == HexText(HexVal(g));
    }
  }

  lemma HexValStep(g: string)
    requires AllHex(g) && g != ""
    ensures AllHex(Front(g)) && IsHexDigit(Last(g))
    ensures HexVal(g) == 16 * HexVal(Front(g)) + HexDigitVal(Last(g))
  {
  }

  lemma Parts(s: string)
    requires s != ""
    ensures s == Front(s) + [Last(s)]
  {
  }

  lemma NoDigits(g: string)
    requires g == ""
    ensures Lower(g) == "" && HexVal(g) == 0
  {
  }

  lemma {:induction false} LeadingHexZeros(g: string) returns (z: nat)
    requires AllHex(g) && g != ""
    ensures Lower(g) == Repeat('0', z) + HexText(HexVal(g))
  {
    hide HexText;
    hide HexVal;
    hide Lower;
    hide HexDigitVal;
    LowerDigits(g);
    if |g| == 1 {
      z := 0;
      assert Repeat('0', 0) + Lower(g) == Lower(g);
    } else {
      var m, d := HexVal(Front(g)), HexDigitVal(Last(g));
      HexTextGrows(m, d);
      HexTextGrows(0, 0);
      z := LeadingHexZeros(Front(g));
      if m == 0 {
        assert Repeat('0', z) + "0" == Repeat('0', z + 1);
        z := z + 1;
      } else {
        assert Repeat('0', z) + HexText(m) + [HexChar(d)] == Repeat('0', z) + (HexText(m) + [HexChar(d)]);
      }
    }
  }

  /** The hex digits worth n are, case apart, exactly the printed form of n behind any number of zeros. */
  lemma HexSpelling(g: string, n: nat)
    ensures g != "" && AllHex(g) && HexVal(g) == n <==> exists z :: Lower(g) == Repeat('0', z) + HexText(n)
  {
    hide HexText;
    if g != "" && AllHex(g) && HexVal(g) == n {
      var z := LeadingHexZeros(g);
    }
    forall z | Lower(g) == Repeat('0', z) + HexText(n) ensures g != "" && AllHex(g) && HexVal(g) == n {
      HexZeros(z);
      HexTextVal(n);
      HexValLead(Repeat('0', z), HexText(n));
      LowerHex(g);
    }
  }

  /** A group is accepted exactly when it is a word so spelled. */
  lemma GroupSpelling(g: string)
    ensures HexGroup(g) <==> exists w: Word, z: nat :: Lower(g) == Repeat('0', z) + HexText(w)
  {
    hide HexText;
    if HexGroup(g) {
      var w: Word := HexVal(g);
      HexSpelling(g, w);
      var z: nat :| Lower(g) == Repeat('0', z) + HexText(w);
    }
    forall w: Word, z: nat | Lower(g) == Repeat('0', z) + HexText(w) ensures HexGroup(g) {
      HexSpelling(g, w);
    }
  }

  // ----- the canonical spelling -----

  /** One to four lower-case digits, without zeros in front (sections 4.1 and 4.3 of RFC 5952). */
  predicate CanonicalField(g: string) { HexField(g) && Lower(g) == g && (|g| > 1 ==> g[0] != '0') }

  predicate CanonicalFields(fs: seq<string>) { forall i :: 0 <= i < |fs| ==> CanonicalField(fs[i]) }

  /** The text t spells the bytes x, canonically and without "::". */
  predicate Spells(t: string, x: seq<Byte>) { CanonicalFields(Fields(t)) && AllBytes(Fields(t)) == x }

  lemma {:induction false} NoZeroInFront(n: nat)
    ensures HexText(n)[0] == '0' <==> n == 0
    ensures n == 0 ==> |HexText(n)| == 1
  {
    if n >= 16 {
      NoZeroInFront(n / 16);
      assert n / 16 > 0;
    }
  }

  lemma {:induction false} TextIsLower(n: nat)
    ensures Lower(HexText(n)) == HexText(n)
  {
    if n >= 16 {
      TextIsLower(n / 16);
      LowerConcat(HexText(n / 16), [HexChar(n % 16)]);
    }
  }

  /** There is one canonical field for each word, the one %x prints. */
  lemma OneCanonicalField(g: string, w: Word)
    ensures CanonicalField(g) && HexVal(g) == w <==> g == HexText(w)
  {
    hide HexText;
    WordText(w);
    TextIsLower(w);
    NoZeroInFront(w);
    HexFieldIs(HexText(w));
    if CanonicalField(g) && HexVal(g) == w {
      HexSpelling(g, w);
      var z: nat :| g == Repeat('0', z) + HexText(w);
      assert g[0] == if z > 0 then '0' else HexText(w)[0];
      assert z == 0;
      assert Repeat('0', 0) + HexText(w) == HexText(w);
    }
  }

  lemma {:induction false} FieldsLength(fs: seq<string>)
    requires CanonicalFields(fs)
    ensures HexGroups(fs) && |AllBytes(fs)| == 2 * |fs|
  {
    forall i | 0 <= i < |fs| ensures HexGroup(fs[i]) {
      HexFieldIs(fs[i]);
    }
    if fs != [] {
      FieldsLength(Front(fs));
      assert HexGroup(Last(fs));
    }
  }

  lemma EqualParts(x: seq<Byte>, u: seq<Byte>, y: seq<Byte>, v: seq<Byte>)
    requires x + u == y + v && |u| == |v|
    ensures x == y && u == v
  {
    assert |x| == |y|;
    assert x == (x + u)[..|x|] && y == (y + v)[..|x|];
    assert u == (x + u)[|x|..] && v == (y + v)[|x|..];
  }

  lemma LastFieldIs(g: string, w: Word)
    requires CanonicalField(g)
    ensures |FieldBytes(g)| == 2 && (FieldBytes(g) == WordBytes(w) ==> g == HexText(w))
  {
    hide HexText;
    HexFieldIs(g);
    OneCanonicalField(g, w);
  }

  lemma {:induction false} FieldsAreTexts(fs: seq<string>, w: seq<Word>)
    requires CanonicalFields(fs) && AllBytes(fs) == BytesOf(w)
    ensures fs == HexTexts(w)
  {
    hide HexText;
    hide CanonicalField;
    hide FieldBytes;
    FieldsLength(fs);
    if fs != [] {
      assert CanonicalField(Last(fs));
      LastFieldIs(Last(fs), Last(w));
      EqualParts(AllBytes(Front(fs)), FieldBytes(Last(fs)), BytesOf(Front(w)), WordBytes(Last(w)));
      FieldsAreTexts(Front(fs), Front(w));
      assert fs == Front(fs) + [Last(fs)];
      assert HexTexts(w) == HexTexts(Front(w)) + [HexText(Last(w))];
    }
  }

  /** Words have one canonical spelling, %x with colons between. */
  lemma SpellsExactly(t: string, w: seq<Word>)
    ensures Spells(t, BytesOf(w)) <==> t == Join(HexTexts(w), ':')
  {
    hide HexText;
    hide Join;
    hide Split;
    hide CanonicalField;
    BytesOfTexts(w);
    HexIsLoose(HexTexts(w));
    FieldsOfJoin(HexTexts(w));
    forall i | 0 <= i < |w| ensures CanonicalField(HexTexts(w)[i]) {
      OneCanonicalField(HexText(w[i]), w[i]);
    }
    if Spells(t, BytesOf(w)) {
      FieldsAreTexts(Fields(t), w);
      JoinFields(t);
    }
  }

  // ----- the canonical text of an address -----

  /** The addresses printed with a dotted quad: IPv4-compatible and IPv4-mapped ones. */
  predicate HoldsQuad(b: seq<Byte>, base: nat, len: nat)
    requires |b| == 16
  {
    base == 0 && (len == 6 || (len == 5 && b[10] == 0xff && b[11] == 0xff))
  }

  /** "::" in place of the len words from base on. */
  ghost predicate Shortened(s: string, b: seq<Byte>, base: nat, len: nat, front: string, back: string)
    requires |b| == 16 && base + len <= 8
  {
    && s == front + "::" + back && Spells(front, b[..2 * base])
    && if HoldsQuad(b, base, len) then back == (if len == 6 then "" else "ffff:") + QuadText(b[12..])
       else Spells(back, b[2 * (base + len)..])
  }

  /** Two zero words in a row. */
  predicate HasZeroPair(b: seq<Byte>)
    requires |b| == 16
  {
    exists i :: 0 <= i < 7 && WordsOf(b)[i] == WordsOf(b)[i + 1] == 0
  }

  /** Section 4 of RFC 5952: without "::" if there is no run of two zero words, and otherwise with "::" for the
      leftmost of the longest runs. */
  ghost predicate Canonical(s: string, b: seq<Byte>) {
    && |b| == 16
    && if !HasZeroPair(b) then Spells(s, b)
       else exists base: nat, len: nat, front, back ::
              base + len <= 8 && LeftmostLongest(WordsOf(b), base, len) && Shortened(s, b, base, len, front, back)
  }

  lemma PairIsRun(b: seq<Byte>)
    requires |b| == 16
    ensures HasZeroPair(b) <==> exists s, t :: ZeroRun(WordsOf(b), s, t) && t - s >= 2
  {
    var w := WordsOf(b);
    if HasZeroPair(b) {
      var i :| 0 <= i < 7 && w[i] == w[i + 1] == 0;
      assert ZeroRun(w, i, i + 2);
    }
    if exists s, t :: ZeroRun(w, s, t) && t - s >= 2 {
      var s, t :| ZeroRun(w, s, t) && t - s >= 2;
      assert w[s] == 0 && w[s + 1] == 0;
    }
  }

  /** The words of part of an address. */
  lemma PartOf(b: seq<Byte>, i: nat, j: nat)
    requires |b| == 16 && i <= j <= 8
    ensures BytesOf(WordsOf(b)[i..j]) == b[2 * i..2 * j]
  {
    var w := WordsOf(b);
    BytesOfWordsOf(b);
    BytesOfConcat(w[..i], w[i..j]);
    BytesOfConcat(w[..j], w[j..]);
    assert w[..i] + w[i..j] == w[..j] && w[..j] + w[j..] == w;
    assert b == BytesOf(w[..i]) + BytesOf(w[i..j]) + BytesOf(w[j..]);
  }

  lemma MappedWord(b: seq<Byte>)
    requires |b| == 16
    ensures WordsOf(b)[5] == 0xffff <==> b[10] == 0xff && b[11] == 0xff
  {
    assert WordsOf(b)[5] == 256 * (b[10] as int) + b[11];
  }

  lemma ShortenedExactly(s: string, b: seq<Byte>, base: nat, len: nat)
    requires |b| == 16 && base + len <= 8
    ensures (exists front, back :: Shortened(s, b, base, len, front, back)) <==> s == TextOf(b, Run(base, len))
  {
    hide WordsOf;
    hide HexTexts;
    hide Join;
    hide QuadText;
    hide Spells;
    hide BytesOf;
    var w := WordsOf(b);
    var head, tail := Join(HexTexts(w[..base]), ':'), Join(HexTexts(w[base + len..]), ':');
    MappedWord(b);
    assert w[0..base] == w[..base] && w[base + len..8] == w[base + len..];
    assert b[0..2 * base] == b[..2 * base] && b[2 * (base + len)..16] == b[2 * (base + len)..];
    PartOf(b, 0, base);
    PartOf(b, base + len, 8);
    SpellsExactly(head, w[..base]);
    if HoldsQuad(b, base, len) {
      NoWords();
      NoTexts();
      assert w[..0] == [];
      var back := (if len == 6 then "" else "ffff:") + QuadText(b[12..]);
      assert "" + "::" + back == (if len == 6 then "::" else "::ffff:") + QuadText(b[12..]);
      forall front, rest | Shortened(s, b, base, len, front, rest) ensures front == "" && rest == back {
        SpellsExactly(front, w[..base]);
      }
      assert s == TextOf(b, Run(base, len)) ==> Shortened(s, b, base, len, "", back);
    } else {
      SpellsExactly(tail, w[base + len..]);
      forall front, rest | Shortened(s, b, base, len, front, rest) ensures front == head && rest == tail {
        SpellsExactly(front, w[..base]);
        SpellsExactly(rest, w[base + len..]);
      }
      assert s == TextOf(b, Run(base, len)) ==> Shortened(s, b, base, len, head, tail);
    }
  }

  lemma NoTexts()
    ensures HexTexts([]) == []
  {
  }

  /** inet_ntop6 prints the canonical text and nothing else. */
  lemma PrintsCanonically(b: seq<Byte>, s: string)
    ensures Prints(b, s) <==> Canonical(s, b)
  {
    hide WordsOf;
    hide TextOf;
    hide Shortened;
    hide Spells;
    if |b| == 16 {
      PairIsRun(b);
      TextWithoutRun(b);
      SpellsExactly(s, WordsOf(b));
      BytesOfWordsOf(b);
      if Prints(b, s) {
        var r :| Shortens(WordsOf(b), r) && s == TextOf(b, r);
        if r.Run? {
          assert ZeroRun(WordsOf(b), r.base, r.base + r.len);
          ShortenedExactly(s, b, r.base, r.len);
        }
      }
      if Canonical(s, b) && HasZeroPair(b) {
        var base: nat, len: nat, front, back :|
          base + len <= 8 && LeftmostLongest(WordsOf(b), base, len) && Shortened(s, b, base, len, front, back);
        ShortenedExactly(s, b, base, len);
        assert Shortens(WordsOf(b), Run(base, len));
      } else if Canonical(s, b) {
        assert Shortens(WordsOf(b), NoRun);
      }
    }
  }

  lemma TextWithoutRun(b: seq<Byte>)
    requires |b| == 16
    ensures TextOf(b, NoRun) == Join(HexTexts(WordsOf(b)), ':')
  {
  }
}
