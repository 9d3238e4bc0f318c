/** Parsing the printed form of an IPv6 address gives the address back. */
module Ipv6RoundTrip {
  import opened Text
  import opened Ipv4Text
  import opened Ipv6Text
  import opened Ipv6Words
  import opened Ipv6Grammar

  lemma PlainRoundTrip(b: seq<Byte>)
    requires |b| == 16
    ensures Parse6(Join(HexTexts(WordsOf(b)), ':')) == Some(b)
  {
    hide *;
    var w := WordsOf(b);
    BytesOfTexts(w);
    HexIsLoose(HexTexts(w));
    BytesOfWordsOf(b);
    PlainParse(HexTexts(w));
  }

  lemma GapRoundTrip(b: seq<Byte>, base: nat, len: nat)
    requires |b| == 16 && len >= 1 && ZeroRun(WordsOf(b), base, base + len) && base + len <= 8
    ensures var w := WordsOf(b);
            Parse6(Join(HexTexts(w[..base]), ':') + "::" + Join(HexTexts(w[base + len..]), ':')) == Some(b)
  {
    hide *;
    var w := WordsOf(b);
    var head, tail := w[..base], w[base + len..];
    RunSplits(b, base, len);
    BytesOfTexts(head);
    BytesOfTexts(tail);
    HexIsLoose(HexTexts(tail));
    GapParse(HexTexts(head), HexTexts(tail));
    FillBetween(BytesOf(head), BytesOf(tail));
  }

  /** "::", some groups and a quad at the end. */
  lemma QuadParses(front: seq<string>, q: seq<Byte>)
    requires HexGroups(front) && |q| == 4 && |AllBytes(front)| <= 10
    ensures Parse6("::" + Join(front + [QuadText(q)], ':')) ==
            Some(Zeros(12 - |AllBytes(front)|) + (AllBytes(front) + q))
  {
    hide *;
    NoFields();
    QuadField(q);
    TailFields(front, QuadText(q));
    GapParse([], front + [QuadText(q)]);
    var y := AllBytes(front) + q;
    assert [] + y == y && "" + "::" + Join(front + [QuadText(q)], ':') == "::" + Join(front + [QuadText(q)], ':');
    FillBetween([], y);
    assert [] + Zeros(16 - |y|) + y == Zeros(16 - |y|) + y;
  }

  lemma NoFields()
    ensures HexGroups([]) && AllBytes([]) == [] && Join([], ':') == ""
  {
  }

  lemma QuadField(q: seq<Byte>)
    requires |q| == 4
    ensures LastField(QuadText(q)) && FieldBytes(QuadText(q)) == q
  {
    PrintParse4(q);
    QuadHas(QuadText(q));
  }

  lemma QuadRoundTrip(b: seq<Byte>, len: nat)
    requires |b| == 16 && EmbedsQuad(WordsOf(b), Run(0, len)) && ZeroRun(WordsOf(b), 0, len)
    ensures Parse6(TextOf(b, Run(0, len))) == Some(b)
  {
    hide Parse6;
    hide QuadText;
    hide AllBytes;
    var q := b[12..];
    FrontBytes(b, len);
    if len == 5 {
      FfffField();
      QuadParses(["ffff"], q);
      assert ["ffff"] + [QuadText(q)] == ["ffff", QuadText(q)];
      TwoJoined("ffff", QuadText(q));
      assert "::" + ("ffff" + ":" + QuadText(q)) == "::ffff:" + QuadText(q);
    } else {
      NoFields();
      QuadParses([], q);
      assert [] + [QuadText(q)] == [QuadText(q)] && [] + q == q;
      assert Join([QuadText(q)], ':') == QuadText(q);
    }
  }

  lemma TwoJoined(s: string, t: string)
    ensures Join([s, t], ':') == s + ":" + t
  {
    assert Front([s, t]) == [s];
  }

  lemma FfffField()
    ensures HexGroups(["ffff"]) && AllBytes(["ffff"]) == [0xff, 0xff]
  {
    FfffText();
    BytesOfTexts([0xffff]);
    assert HexTexts([0xffff]) == ["ffff"];
    assert Front<Word>([0xffff]) == [];
    assert BytesOf([0xffff]) == [] + WordBytes(0xffff);
  }

  lemma FrontBytes(b: seq<Byte>, len: nat)
    requires |b| == 16 && EmbedsQuad(WordsOf(b), Run(0, len)) && ZeroRun(WordsOf(b), 0, len)
    ensures b == if len == 5 then Zeros(10) + ([0xff, 0xff] + b[12..]) else Zeros(12) + b[12..]
  {
    var w := WordsOf(b);
    forall i | 0 <= i < len ensures b[2 * i] == b[2 * i + 1] == 0 {
      assert w[i] == 0;
    }
    forall j | 0 <= j < 2 * len ensures b[j] == 0 {
      assert j == 2 * (j / 2) || j == 2 * (j / 2) + 1;
    }
    if len == 5 {
      assert w[5] == 256 * (b[10] as int) + b[11];
    }
  }

  /** The law: every printed address parses back to the very same sixteen bytes. */
  lemma RoundTrip(b: seq<Byte>, text: string)
    requires Prints(b, text)
    ensures Parse6(text) == Some(b)
  {
    hide Parse6;
    hide WordsOf;
    hide QuadText;
    hide Join;
    var r :| Shortens(WordsOf(b), r) && text == TextOf(b, r);
    if r.NoRun? {
      PlainRoundTrip(b);
    } else if EmbedsQuad(WordsOf(b), r) {
      QuadRoundTrip(b, r.len);
    } else {
      GapRoundTrip(b, r.base, r.len);
    }
  }

  /** Hence no two addresses share a text, and no address has two. */
  lemma PrintingIsOneToOne(b: seq<Byte>, c: seq<Byte>, text: string, other: string)
    requires Prints(b, text) && Prints(c, other)
    ensures b == c <==> text == other
  {
    RoundTrip(b, text);
    RoundTrip(c, other);
    if b == c {
      var r :| Shortens(WordsOf(b), r) && text == TextOf(b, r);
      var q :| Shortens(WordsOf(b), q) && other == TextOf(b, q);
      assert r.Run? ==> ZeroRun(WordsOf(b), r.base, r.base + r.len);
      assert q.Run? ==> ZeroRun(WordsOf(b), q.base, q.base + q.len);
      if r.Run? && q.Run? {
        LeftmostLongestUnique(WordsOf(b), r.base, r.len, q.base, q.len);
      }
    }
  }

  // ----- length -----

  lemma {:induction false} JoinLength(w: seq<Word>)
    ensures |Join(HexTexts(w), ':')| <= 5 * |w|
    ensures w != [] ==> 2 * |w| - 1 <= |Join(HexTexts(w), ':')| <= 5 * |w| - 1
  {
    if w != [] {
      WordText(Last(w));
      JoinLength(Front(w));
      assert Front(HexTexts(w)) == HexTexts(Front(w));
    }
  }

  /** A printed address never takes more than 39 characters. */
  lemma PrintedLength(b: seq<Byte>, text: string)
    requires Prints(b, text)
    ensures 2 <= |text| <= 39
  {
    hide Join;
    hide QuadText;
    hide WordsOf;
    var r :| Shortens(WordsOf(b), r) && text == TextOf(b, r);
    var w := WordsOf(b);
    QuadTextSplit(b[12..]);
    JoinLength(w);
    if r.Run? {
      JoinLength(w[..r.base]);
      JoinLength(w[r.base + r.len..]);
    }
  }
}
