/** Words, bytes and the texts of both: what the proofs about IPv6 text share. */
module Ipv6Words {
  import opened Text
  import opened Ipv4Text
  import opened Ipv6Text

  // ----- hex groups -----

  lemma HexCharVal(d: nat)
    requires d < 16
    ensures IsHexDigit(HexChar(d)) && HexDigitVal(HexChar(d)) == d
  {
  }

  lemma {:induction false} HexTextVal(n: nat)
    ensures AllHex(HexText(n)) && HexVal(HexText(n)) == n
  {
    HexCharVal(n % 16);
    if n >= 16 {
      HexTextVal(n / 16);
      assert Front(HexText(n)) == HexText(n / 16);
    } else {
      assert Front(HexText(n)) == "";
    }
  }

  lemma {:induction false} HexTextLength(n: nat, digits: nat, bound: nat)
    requires digits >= 1 && n < bound && bound == Pow16(digits)
    ensures |HexText(n)| <= digits
  {
    if n >= 16 {
      assert Pow16(digits) == 16 * Pow16(digits - 1);
      HexTextLength(n / 16, digits - 1, Pow16(digits - 1));
    }
  }

  function Pow16(n: nat): nat { if n == 0 then 1 else 16 * Pow16(n - 1) }

  lemma WordText(w: Word)
    ensures HexGroup(HexText(w)) && HexVal(HexText(w)) == w && |HexText(w)| <= 4
    ensures ':' !in HexText(w)
  {
    HexTextVal(w);
    assert Pow16(4) == 16 * Pow16(3) == 256 * Pow16(2) == 0x1_0000;
    HexTextLength(w, 4, 0x1_0000);
  }

  lemma FfffText()
    ensures HexText(0xffff) == "ffff"
  {
    assert HexText(0xf) == "f";
    assert HexText(0xff) == HexText(0xf) + "f";
    assert HexText(0xfff) == HexText(0xff) + "f";
  }

  // ----- words and bytes -----

  lemma {:induction false} BytesOfAt(w: seq<Word>, i: nat)
    requires i < |w|
    ensures BytesOf(w)[2 * i] == w[i] / 256 && BytesOf(w)[2 * i + 1] == w[i] % 256
  {
    if i < |w| - 1 {
      BytesOfAt(Front(w), i);
    }
  }

  lemma BytesOfWordsOf(b: seq<Byte>)
    requires |b| == 16
    ensures BytesOf(WordsOf(b)) == b
  {
    var c := BytesOf(WordsOf(b));
    forall i | 0 <= i < 8 ensures c[2 * i] == b[2 * i] && c[2 * i + 1] == b[2 * i + 1] {
      BytesOfAt(WordsOf(b), i);
    }
    forall j | 0 <= j < 16 ensures c[j] == b[j] {
      assert j == 2 * (j / 2) || j == 2 * (j / 2) + 1;
    }
  }

  lemma {:induction false} BytesOfConcat(v: seq<Word>, w: seq<Word>)
    ensures BytesOf(v + w) == BytesOf(v) + BytesOf(w)
  {
    if w == [] {
      assert v + w == v;
    } else {
      BytesOfConcat(v, Front(w));
      AppendLast(v, w);
    }
  }

  lemma {:induction false} BytesOfZeros(w: seq<Word>)
    requires forall i :: 0 <= i < |w| ==> w[i] == 0
    ensures BytesOf(w) == Zeros(2 * |w|)
  {
    if w != [] {
      BytesOfZeros(Front(w));
    }
  }

  lemma RunSplits(b: seq<Byte>, base: nat, len: nat)
    requires |b| == 16 && ZeroRun(WordsOf(b), base, base + len)
    ensures var w := WordsOf(b);
            b == BytesOf(w[..base]) + Zeros(2 * len) + BytesOf(w[base + len..])
  {
    hide BytesOf;
    hide WordsOf;
    var w := WordsOf(b);
    BytesOfWordsOf(b);
    BytesOfConcat(w[..base], w[base..base + len]);
    BytesOfConcat(w[..base + len], w[base + len..]);
    BytesOfZeros(w[base..base + len]);
    assert w[..base] + w[base..base + len] == w[..base + len];
    assert w[..base + len] + w[base + len..] == w;
  }

  lemma NoWords()
    ensures Join(HexTexts([]), ':') == "" && Split("", ':') == [""] && BytesOf([]) == []
  {
  }

  // ----- pieces of a text, and how they are scanned -----

  /** A string starts with the separator exactly when its first piece is empty and not alone. */
  lemma {:induction false} SplitStart(s: string, sep: char)
    ensures s != "" && s[0] == sep <==> Split(s, sep)[0] == "" && |Split(s, sep)| > 1
  {
    hide Split;
    if s == "" {
      SplitEmpty(sep);
    } else {
      var t, c := Front(s), Last(s);
      SplitStart(t, sep);
      JoinSplit(t, sep);
      assert s == t + [c] && s[0] == if t == "" then c else t[0];
      SplitSnoc(t, c, sep);
    }
  }

  /** "::" behind the groups gs, if any, and before the rest of the text. */
  lemma GapTextOf(gs: seq<string>, rest: string)
    requires forall i :: 0 <= i < |gs| ==> gs[i] != "" && ':' !in gs[i]
    ensures var text := Join(gs, ':') + "::" + rest;
            && !BadStart(text) && Split(Body(text), ':') == gs + [""] + Split(rest, ':')
            && Split(text, ':') == (if gs == [] then [""] else gs) + [""] + Split(rest, ':')
  {
    hide Split;
    hide Join;
    var text := Join(gs, ':') + "::" + rest;
    NoWords();
    SplitEmpty(':');
    SplitConcat("", rest, ':');
    assert "" + [':'] + rest == ":" + rest;
    if gs == [] {
      assert text == "::" + rest && text[1..] == ":" + rest;
      assert "" + [':'] + (":" + rest) == text;
      SplitConcat("", ":" + rest, ':');
      assert [""] + ([""] + Split(rest, ':')) == [""] + [""] + Split(rest, ':');
      assert gs + [""] == [""];
    } else {
      var j := Join(gs, ':');
      SplitJoin(gs, ':');
      SplitStart(j, ':');
      assert gs[0] != "" && j != "";
      assert text[0] == j[0];
      SplitConcat(j, ":" + rest, ':');
      assert text == j + [':'] + (":" + rest);
      assert gs + ([""] + Split(rest, ':')) == gs + [""] + Split(rest, ':');
    }
  }

  lemma Parse6Of(s: string, gs: seq<string>)
    requires !BadStart(s) && gs == Split(Body(s), ':')
    ensures Parse6(s) == ParseGroups(gs)
  {
  }

  lemma ScanNothing()
    ensures ScanGroups([]) == Some(Scan([], None))
  {
  }

  lemma NothingLast(a: Scan)
    ensures AddLast(a, "") == Some(a)
  {
  }

  lemma ParseLast(gs: seq<string>, last: string, a: Scan, c: Scan)
    requires ScanGroups(gs) == Some(a) && AddLast(a, last) == Some(c) && ScanOk(c)
    ensures ParseGroups(gs + [last]) == FillGap(c)
  {
    AppendLast(gs, [last]);
    assert gs + Front([last]) == gs;
  }

  lemma FillBetween(x: seq<Byte>, y: seq<Byte>)
    requires |x| + |y| < 16
    ensures FillGap(Scan(x + y, Some(|x|))) == Some(x + Zeros(16 - |x| - |y|) + y)
  {
  }
}
