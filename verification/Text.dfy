/** Bytes, C strings and the splitting of a string at a separator. */
module Text {

  type Byte = x: int | 0 <= x < 0x100
  type Word = x: int | 0 <= x < 0x1_0000

  /** The characters of a C string, without its terminating NUL. */
  type CString = s: string | '\0' !in s

  datatype Option<+T> = None | Some(value: T)

  /** The size of the line buffers all these programs use. */
  const MAXLINE := 4096

  predicate IsDigit(c: char) { '0' <= c <= '9' }

  function Max(a: int, b: int): (m: int)
    ensures m >= a && m >= b && m in {a, b}
  {
    if a > b then a else b
  }

  /** The position of the first element with property p, or the length when there is none. */
  function FirstWith<T>(s: seq<T>, p: T -> bool): (i: nat)
    ensures i <= |s| && (i < |s| ==> p(s[i]))
    ensures forall j :: 0 <= j < i ==> !p(s[j])
  {
    if s == [] || p(s[0]) then 0 else 1 + FirstWith(s[1..], p)
  }

  lemma {:induction false} FirstWithUnique<T>(s: seq<T>, p: T -> bool, i: nat)
    requires i <= |s| && (i < |s| ==> p(s[i]))
    requires forall j :: 0 <= j < i ==> !p(s[j])
    ensures i == FirstWith(s, p)
  {
  }

  function Zeros(n: nat): (r: seq<Byte>)
    ensures |r| == n && forall i :: 0 <= i < n ==> r[i] == 0
  {
    seq(n, _ => 0)
  }

  /** A word in network order, as htons and inet_pton store it. */
  function WordBytes(w: Word): (r: seq<Byte>)
    ensures |r| == 2 && 256 * (r[0] as int) + r[1] == w
  {
    [w / 256, w % 256]
  }

  function Repeat(c: char, n: nat): (r: string)
    ensures |r| == n && forall i :: 0 <= i < n ==> r[i] == c
  {
    seq(n, _ => c)
  }

  function Last<T>(s: seq<T>): T
    requires s != []
  {
    s[|s| - 1]
  }

  function Front<T>(s: seq<T>): seq<T>
    requires s != []
  {
    s[..|s| - 1]
  }

  /** The pieces between the separators; one piece more than there are separators. */
  function Split(s: string, sep: char): (parts: seq<string>)
    ensures parts != []
  {
    if s == "" then [""]
    else
      var parts := Split(Front(s), sep);
      if Last(s) == sep then parts + [""] else Front(parts) + [Last(parts) + [Last(s)]]
  }

  function Join(parts: seq<string>, sep: char): string
  {
    if parts == [] then ""
    else if |parts| == 1 then parts[0]
    else Join(Front(parts), sep) + [sep] + Last(parts)
  }

  lemma SplitSnoc(s: string, c: char, sep: char)
    ensures Split(s + [c], sep) ==
            if c == sep then Split(s, sep) + [""]
            else Front(Split(s, sep)) + [Last(Split(s, sep)) + [c]]
  {
    assert Front(s + [c]) == s;
  }

  /** Splitting loses nothing. */
  lemma {:induction false} JoinSplit(s: string, sep: char)
    ensures Join(Split(s, sep), sep) == s
  {
    if s != "" {
      var parts := Split(Front(s), sep);
      JoinSplit(Front(s), sep);
      assert s == Front(s) + [Last(s)];
      if Last(s) == sep {
        assert Front(parts + [""]) == parts;
      } else {
        var longer := Front(parts) + [Last(parts) + [Last(s)]];
        assert Front(longer) == Front(parts);
      }
    }
  }

  /** No piece holds the separator. */
  lemma {:induction false} SplitPiecesHaveNoSep(s: string, sep: char)
    ensures forall i :: 0 <= i < |Split(s, sep)| ==> sep !in Split(s, sep)[i]
  {
    if s != "" {
      SplitPiecesHaveNoSep(Front(s), sep);
    }
  }

  /** A string without separators is a single piece. */
  lemma {:induction false} SplitNoSep(s: string, sep: char)
    requires sep !in s
    ensures Split(s, sep) == [s]
  {
    if s != "" {
      SplitNoSep(Front(s), sep);
      assert s == Front(s) + [Last(s)];
    }
  }

  lemma AppendLast<T>(p: seq<T>, q: seq<T>)
    requires q != []
    ensures Last(p + q) == Last(q) && Front(p + q) == p + Front(q)
  {
  }

  lemma SplitEmpty(sep: char)
    ensures Split("", sep) == [""]
  {
  }

  /** A separator cuts the pieces in two. */
  lemma {:induction false} SplitConcat(a: string, b: string, sep: char)
    ensures Split(a + [sep] + b, sep) == Split(a, sep) + Split(b, sep)
  {
    hide Split;
    if b == "" {
      assert a + [sep] + b == a + [sep];
      SplitSnoc(a, sep, sep);
      SplitEmpty(sep);
    } else {
      SplitConcat(a, Front(b), sep);
      assert a + [sep] + b == (a + [sep] + Front(b)) + [Last(b)];
      SplitConcatStep(a + [sep] + Front(b), Split(a, sep), Front(b), Last(b), sep);
      assert b == Front(b) + [Last(b)];
    }
  }

  lemma SplitConcatStep(x: string, pa: seq<string>, y: string, c: char, sep: char)
    requires Split(x, sep) == pa + Split(y, sep)
    ensures Split(x + [c], sep) == pa + Split(y + [c], sep)
  {
    hide Split;
    SplitSnoc(x, c, sep);
    SplitSnoc(y, c, sep);
    AppendLast(pa, Split(y, sep));
    assert pa + Split(y, sep) + [""] == pa + (Split(y, sep) + [""]);
  }

  /** Pieces without separators come back from their join. */
  lemma {:induction false} SplitJoin(parts: seq<string>, sep: char)
    requires parts != []
    requires forall i :: 0 <= i < |parts| ==> sep !in parts[i]
    ensures Split(Join(parts, sep), sep) == parts
  {
    if |parts| == 1 {
      SplitNoSep(parts[0], sep);
    } else {
      SplitJoin(Front(parts), sep);
      SplitNoSep(Last(parts), sep);
      SplitConcat(Join(Front(parts), sep), Last(parts), sep);
      assert parts == Front(parts) + [Last(parts)];
    }
  }

  /** What Split means: the only pieces free of separators that the separators join to the string. */
  lemma SplitExactly(s: string, sep: char, parts: seq<string>)
    ensures parts == Split(s, sep) <==>
              parts != [] && Join(parts, sep) == s && forall i :: 0 <= i < |parts| ==> sep !in parts[i]
  {
    hide Split;
    hide Join;
    JoinSplit(s, sep);
    SplitPiecesHaveNoSep(s, sep);
    if parts != [] && Join(parts, sep) == s && forall i :: 0 <= i < |parts| ==> sep !in parts[i] {
      SplitJoin(parts, sep);
    }
  }

  /** Reading on keeps every finished piece and only lengthens the open one. */
  lemma {:induction false} SplitExtends(s: string, t: string, sep: char)
    ensures var p, q := Split(s, sep), Split(s + t, sep);
            |p| <= |q| && Front(p) == q[..|p| - 1] && Last(p) <= q[|p| - 1]
  {
    hide Split;
    if t == "" {
      assert s + t == s;
    } else {
      SplitExtends(s, Front(t), sep);
      assert s + t == (s + Front(t)) + [Last(t)];
      SplitSnoc(s + Front(t), Last(t), sep);
    }
  }

  /** If the rest of the string holds no separator the open piece takes all of it. */
  lemma {:induction false} SplitRest(s: string, t: string, sep: char)
    requires sep !in t
    ensures Split(s + t, sep) == Front(Split(s, sep)) + [Last(Split(s, sep)) + t]
  {
    hide Split;
    var p := Split(s, sep);
    if t == "" {
      assert s + t == s && Last(p) + t == Last(p);
    } else {
      SplitRest(s, Front(t), sep);
      assert s + t == (s + Front(t)) + [Last(t)];
      SplitSnoc(s + Front(t), Last(t), sep);
      AppendLast(Front(p), [Last(p) + Front(t)]);
      assert Front(p) + Front([Last(p) + Front(t)]) == Front(p);
      assert Last(p) + Front(t) + [Last(t)] == Last(p) + t;
    }
  }
}
