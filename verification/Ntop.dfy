/** inet_ntop4 and inet_ntop6: printing addresses. */
module Ntop {
  import opened Text
  import opened Ipv4Text
  import opened Ipv6Text
  import opened Ipv6Words
  import Ipv6RoundTrip

  /** Into a buffer of the documented size the text always fits. The test leaves the NUL out of account: that
      success means room for text and NUL holds exactly when the text is not just as long as the buffer. */
  method InetNtop4(src: seq<Byte>, size: nat) returns (r: Option<string>)
    requires |src| == 4
    ensures r == if |QuadText(src)| > size then None else Some(QuadText(src))
    ensures size >= 16 ==> r.Some?
    ensures (r.Some? ==> |r.value| + 1 <= size) <==> |QuadText(src)| != size
  {
    var tmp := DecText(src[0]) + "." + DecText(src[1]) + "." + DecText(src[2]) + "." + DecText(src[3]);
    QuadTextSplit(src);
    if |tmp| > size {
      return None;
    }
    return Some(tmp);
  }

  /** Each word takes two bytes, high byte first. */
  method LoadWords(src: seq<Byte>) returns (words: array<Word>)
    requires |src| == 16
    ensures fresh(words) && words[..] == WordsOf(src)
  {
    words := new Word[8](_ => 0);
    for i := 0 to 16
      invariant forall k :: 0 <= k < 8 ==>
        words[k] == if 2 * k + 1 < i then 256 * (src[2 * k] as int) + src[2 * k + 1]
                    else if 2 * k < i then 256 * (src[2 * k] as int) else 0
    {
      words[i / 2] := words[i / 2] + (if i % 2 == 0 then 256 * (src[i] as int) else src[i]);
    }
  }

  /** Every run that ends by `lim` is no better than the best one found. */
  ghost predicate BestUpTo(w: seq<Word>, lim: int, base: int, len: int) {
    && (base != -1 ==> len >= 1 && ZeroRun(w, base, base + len) && base + len <= lim)
    && forall s, t :: ZeroRun(w, s, t) && t <= lim && s < t ==>
         base != -1 && t - s <= len && (t - s == len ==> base <= s)
  }

  /** The run still open before position i, if any, cannot be stretched to the left. */
  ghost predicate OpenRun(w: seq<Word>, i: int, base: int, len: int) {
    && 0 <= i <= |w|
    && if base == -1 then i == 0 || w[i - 1] != 0
    else 0 <= base < i && len == i - base && ZeroRun(w, base, i) && (base == 0 || w[base - 1] != 0)
  }

  lemma RunClosed(w: seq<Word>, i: int, curBase: int, curLen: int, bestBase: int, bestLen: int)
    requires 0 <= i <= |w| && curBase != -1 && OpenRun(w, i, curBase, curLen)
    requires BestUpTo(w, curBase, bestBase, bestLen)
    ensures if bestBase == -1 || curLen > bestLen then BestUpTo(w, i, curBase, curLen)
            else BestUpTo(w, i, bestBase, bestLen)
  {
    assert forall s, t :: ZeroRun(w, s, t) && t <= i && s < t ==> t <= curBase || s >= curBase;
  }

  lemma NonZeroCloses(w: seq<Word>, i: int, base: int, len: int)
    requires 0 <= i < |w| && w[i] != 0 && BestUpTo(w, i, base, len)
    ensures BestUpTo(w, i + 1, base, len)
  {
    assert forall s, t :: ZeroRun(w, s, t) && t <= i + 1 && s < t ==> t <= i;
  }

  lemma BestIsShortening(w: seq<Word>, base: int, len: int)
    requires BestUpTo(w, |w|, base, len)
    ensures base == -1 || len < 2 ==> Shortens(w, NoRun)
    ensures base != -1 && len >= 2 ==> base >= 0 && Shortens(w, Run(base, len))
  {
    assert base != -1 ==> ZeroRun(w, base, base + len);
  }

  /** The search for the longest run of zero words. */
  method LongestRun(words: array<Word>) returns (r: Run)
    requires words.Length == 8
    ensures Shortens(words[..], r)
  {
    var bestBase, bestLen := -1, 0;
    var curBase, curLen := -1, 0;
    ghost var w := words[..];
    for i := 0 to 8
      invariant words[..] == w
      invariant OpenRun(w, i, curBase, curLen)
      invariant BestUpTo(w, if curBase == -1 then i else curBase, bestBase, bestLen)
    {
      assert words[i] == w[i];
      if words[i] == 0 {
        if curBase == -1 {
          curBase, curLen := i, 1;
        } else {
          curLen := curLen + 1;
        }
      } else {
        if curBase != -1 {
          RunClosed(w, i, curBase, curLen, bestBase, bestLen);
          if bestBase == -1 || curLen > bestLen {
            bestBase, bestLen := curBase, curLen;
          }
          curBase := -1;
        }
        NonZeroCloses(w, i, bestBase, bestLen);
      }
    }
    if curBase != -1 {
      RunClosed(w, 8, curBase, curLen, bestBase, bestLen);
      if bestBase == -1 || curLen > bestLen {
        bestBase, bestLen := curBase, curLen;
      }
    }
    BestIsShortening(w, bestBase, bestLen);
    if bestBase != -1 && bestLen < 2 {
      bestBase := -1;
    }
    return if bestBase == -1 then NoRun else Run(bestBase, bestLen);
  }

  /** The text after the words before position i have been written. */
  ghost function Written(w: seq<Word>, r: Run, i: nat): string
    requires i <= |w| == 8 && (r.Run? ==> r.base + r.len <= 8)
  {
    if r.NoRun? || i <= r.base then Join(HexTexts(w[..i]), ':')
    else if i <= r.base + r.len then Join(HexTexts(w[..r.base]), ':') + ":"
    else Join(HexTexts(w[..r.base]), ':') + "::" + Join(HexTexts(w[r.base + r.len..i]), ':')
  }

  lemma JoinSnoc(w: seq<Word>, x: Word)
    ensures Join(HexTexts(w + [x]), ':') == if w == [] then HexText(x) else Join(HexTexts(w), ':') + ":" + HexText(x)
  {
    AppendLast(w, [x]);
    assert Front(HexTexts(w + [x])) == HexTexts(w);
  }

  lemma JoinSlice(w: seq<Word>, k: nat, i: nat)
    requires k <= i < |w|
    ensures Join(HexTexts(w[k..i + 1]), ':') ==
            if k == i then HexText(w[i]) else Join(HexTexts(w[k..i]), ':') + ":" + HexText(w[i])
  {
    JoinSnoc(w[k..i], w[i]);
    assert w[k..i + 1] == w[k..i] + [w[i]];
  }

  lemma WordWritten(w: seq<Word>, r: Run, i: nat)
    requires i < |w| == 8 && (r.Run? ==> r.base + r.len <= 8 && r.len >= 2 && !(r.base <= i < r.base + r.len))
    ensures Written(w, r, i + 1) == Written(w, r, i) + (if i != 0 then ":" else "") + HexText(w[i])
  {
    hide Join;
    hide HexText;
    if r.NoRun? || i < r.base {
      JoinSlice(w, 0, i);
      assert w[0..i] == w[..i] && w[0..i + 1] == w[..i + 1];
      if i == 0 {
        assert Join(HexTexts(w[..0]), ':') == "" by { NoWords(); }
      }
    } else {
      JoinSlice(w, r.base + r.len, i);
    }
  }

  lemma QuadWritten(w: seq<Word>, r: Run)
    requires |w| == 8 && EmbedsQuad(w, r)
    ensures Written(w, r, 6) + ":" == if r.len == 6 then "::" else "::ffff:"
  {
    assert Join(HexTexts(w[..0]), ':') == "";
    if r.len == 5 {
      assert w[5..6] == [] + [w[5]];
      JoinSnoc([], w[5]);
      FfffText();
    }
  }

  lemma AllWritten(w: seq<Word>, r: Run)
    requires |w| == 8 && (r.Run? ==> r.len >= 2 && r.base + r.len <= 8)
    ensures Written(w, r, 8) + (if r.Run? && r.base + r.len == 8 then ":" else "") ==
            if r.NoRun? then Join(HexTexts(w), ':')
            else Join(HexTexts(w[..r.base]), ':') + "::" + Join(HexTexts(w[r.base + r.len..]), ':')
  {
    assert w[..8] == w;
    if r.Run? {
      assert w[r.base + r.len..8] == w[r.base + r.len..];
      if r.base + r.len == 8 {
        assert Join(HexTexts(w[8..]), ':') == "";
      }
    }
  }

  lemma NothingWritten(w: seq<Word>, r: Run)
    requires |w| == 8 && (r.Run? ==> r.base + r.len <= 8)
    ensures Written(w, r, 0) == ""
  {
    assert HexTexts(w[..0]) == [];
  }

  lemma RunWritten(w: seq<Word>, r: Run, i: nat)
    requires |w| == 8 && r.Run? && r.base <= i < r.base + r.len <= 8
    ensures Written(w, r, i + 1) == Written(w, r, i) + if i == r.base then ":" else ""
  {
    hide HexTexts;
    hide Join;
  }

  /** The finished text, with and without a quad. */
  lemma TextWritten(src: seq<Byte>, r: Run)
    requires |src| == 16 && Shortens(WordsOf(src), r)
    ensures var w := WordsOf(src);
            && (r.Run? ==> r.base + r.len <= 8)
            && TextOf(src, r) == if EmbedsQuad(w, r) then Written(w, r, 6) + ":" + QuadText(src[12..])
                                 else Written(w, r, 8) + if r.Run? && r.base + r.len == 8 then ":" else ""
  {
    hide Written;
    hide Join;
    hide HexText;
    hide QuadText;
    var w := WordsOf(src);
    assert r.Run? ==> ZeroRun(w, r.base, r.base + r.len);
    if EmbedsQuad(w, r) {
      QuadWritten(w, r);
    } else {
      AllWritten(w, r);
    }
  }

  method FormatWords(src: seq<Byte>, words: array<Word>, best: Run) returns (text: string)
    requires |src| == 16 && words[..] == WordsOf(src) && Shortens(words[..], best)
    ensures text == TextOf(src, best)
  {
    hide TextOf;
    hide WordsOf;
    hide Written;
    hide HexText;
    hide QuadText;
    ghost var w := words[..];
    TextWritten(src, best);
    NothingWritten(w, best);
    text := "";
    var i := 0;
    while i < 8
      invariant 0 <= i <= 8 && words[..] == w
      invariant text == Written(w, best, i)
      invariant EmbedsQuad(w, best) ==> i <= 6
    {
      assert words[i] == w[i];
      if best.Run? && best.base <= i < best.base + best.len {
        RunWritten(w, best, i);
        if i == best.base {
          text := text + ":";
        }
        i := i + 1;
        continue;
      }
      WordWritten(w, best, i);
      if i != 0 {
        text := text + ":";
      }
      if i == 6 && best.Run? && best.base == 0 && (best.len == 6 || (best.len == 5 && words[5] == 0xffff)) {
        QuadWritten(w, best);
        var quad := InetNtop4(src[12..], 46 - |text|);
        text := text + quad.value;
        return;
      }
      text := text + HexText(words[i]);
      i := i + 1;
    }
    if best.Run? && best.base + best.len == 8 {
      text := text + ":";
    }
  }

  /** The terminating NUL needs room too; that room is all inet_ntop6 ever lacks. */
  method InetNtop6(src: seq<Byte>, size: nat) returns (r: Option<string>)
    requires |src| == 16
    ensures r.Some? ==> Prints(src, r.value) && |r.value| < size
    ensures r.None? ==> exists text :: Prints(src, text) && size <= |text|
    ensures size >= 40 ==> r.Some?
  {
    var words := LoadWords(src);
    var best := LongestRun(words);
    var text := FormatWords(src, words, best);
    assert Prints(src, text);
    Ipv6RoundTrip.PrintedLength(src, text);
    if |text| + 1 > size {
      return None;
    }
    return Some(text);
  }
}
