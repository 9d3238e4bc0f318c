/** The Internet checksum (RFC 1071) and in_cksum, which computes it. */
module Checksum {
  import opened Text

  /** How the host lays the two bytes of a 16-bit word out in memory. */
  datatype Order = LittleEndian | BigEndian

  function LoadWord(a: Byte, b: Byte, order: Order): Word {
    if order.LittleEndian? then a + 256 * (b as int) else 256 * (a as int) + b
  }

  function StoreWord(w: Word, order: Order): (r: seq<Byte>)
    ensures |r| == 2 && LoadWord(r[0], r[1], order) == w
  {
    if order.LittleEndian? then [w % 256, w / 256] else [w / 256, w % 256]
  }

  /** The words of a message; an odd last byte is padded with zero. */
  function WordsIn(data: seq<Byte>, order: Order): seq<Word> {
    if data == [] then []
    else if |data| == 1 then [LoadWord(data[0], 0, order)]
    else [LoadWord(data[0], data[1], order)] + WordsIn(data[2..], order)
  }

  /** Word by word: two bytes each, the first one high or low as the host has it, and zero after an odd last byte. */
  lemma {:induction false} WordsAt(data: seq<Byte>, order: Order, k: nat)
    requires 2 * k < |data|
    ensures k < |WordsIn(data, order)|
    ensures var a, b := data[2 * k] as int, if 2 * k + 1 < |data| then data[2 * k + 1] as int else 0;
            WordsIn(data, order)[k] == match order case BigEndian => 256 * a + b case LittleEndian => a + 256 * b
  {
    if k > 0 {
      WordsAt(data[2..], order, k - 1);
    }
  }

  /** Section 1 of RFC 1071: an odd message counts as if a zero byte followed. */
  lemma OddPadded(data: seq<Byte>, order: Order)
    requires |data| % 2 == 1
    ensures WordsIn(data + [0], order) == WordsIn(data, order)
  {
    WordCount(data, order);
    WordCount(data + [0], order);
    forall k | 0 <= k < |WordsIn(data, order)| ensures WordsIn(data + [0], order)[k] == WordsIn(data, order)[k] {
      WordsAt(data, order, k);
      WordsAt(data + [0], order, k);
    }
  }

  function Sum(ws: seq<Word>): nat { if ws == [] then 0 else ws[0] + Sum(ws[1..]) }

  // ----- the reference: one's complement arithmetic -----

  /** 16-bit addition with end-around carry. */
  function OnesAdd(x: Word, y: Word): Word { if x + y > 0xffff then x + y - 0xffff else x + y }

  function OnesSum(ws: seq<Word>): Word {
    if ws == [] then 0 else OnesAdd(ws[0], OnesSum(ws[1..]))
  }

  /** Section 1 of RFC 1071: the complement of the one's complement sum. */
  function Rfc1071(data: seq<Byte>, order: Order): Word { 0xffff - OnesSum(WordsIn(data, order)) }

  /** The residue modulo 0xffff, with 0xffff rather than 0 for the positive multiples. */
  function Canon(t: nat): Word { if t == 0 then 0 else (t - 1) % 0xffff + 1 }

  lemma CanonAdd(x: Word, t: nat)
    ensures Canon(x + t) == OnesAdd(x, Canon(t))
  {
    if t > 0 {
      var q := (t - 1) / 0xffff;
      assert t == 0xffff * q + Canon(t);
      CanonUnique(x + t, q, x + Canon(t));
    } else if x > 0 {
      CanonUnique(x, 0, x);
    }
  }

  lemma CanonUnique(t: nat, q: nat, r: nat)
    requires t == 0xffff * q + r && 0 < r <= 2 * 0xffff
    ensures Canon(t) == if r > 0xffff then r - 0xffff else r
  {
    var s, p := if r > 0xffff then r - 0xffff else r, if r > 0xffff then q + 1 else q;
    assert t - 1 == 0xffff * p + (s - 1);
    assert (t - 1) % 0xffff == s - 1;
  }

  lemma {:induction false} OnesSumIsCanon(ws: seq<Word>)
    ensures OnesSum(ws) == Canon(Sum(ws))
  {
    if ws != [] {
      OnesSumIsCanon(ws[1..]);
      CanonAdd(ws[0], Sum(ws[1..]));
    }
  }

  // ----- the code's arithmetic -----

  lemma TwoFolds(s: nat)
    requires s < 0x1_0000_0000
    ensures var a := s / 0x1_0000 + s % 0x1_0000; var b := a + a / 0x1_0000;
            b < 0x1_0000_0000 && b % 0x1_0000 == Canon(s)
  {
    var hi := s / 0x1_0000;
    var a := hi + s % 0x1_0000;
    assert s == 0xffff * hi + a;
    if s > 0 {
      CanonUnique(s, hi, a);
    }
  }

  /** The 32-bit accumulator is harmless exactly when it never wraps. */
  lemma WrapExact(t: nat)
    requires t < 0xffff * 0x1_0000_0000
    ensures Canon(t % 0x1_0000_0000) == Canon(t) <==> t < 0x1_0000_0000
  {
    var k, r := t / 0x1_0000_0000, t % 0x1_0000_0000;
    if k > 0 {
      assert t == 0x1_0000_0000 * k + r;
      assert k < 0xffff;
      assert t == 0xffff * (0x1_0001 * k) + (k + r);
      if r > 0 {
        var q := (r - 1) / 0xffff;
        assert r == 0xffff * q + Canon(r);
        CanonUnique(t, 0x1_0001 * k + q, k + Canon(r));
      }
    }
  }

  lemma {:induction false} WordCount(data: seq<Byte>, order: Order)
    ensures |WordsIn(data, order)| == (|data| + 1) / 2
  {
    if |data| > 1 {
      WordCount(data[2..], order);
    }
  }

  lemma {:induction false} SumBound(ws: seq<Word>)
    ensures Sum(ws) <= 0xffff * |ws|
  {
    if ws != [] {
      SumBound(ws[1..]);
    }
  }

  /** The accumulator, modulo 2^32, plus what is still to come makes the whole sum. */
  ghost predicate Accumulated(data: seq<Byte>, w: nat, order: Order, sum: nat) {
    && w <= |data| && sum < 0x1_0000_0000
    && (sum + Sum(WordsIn(data[w..], order))) % 0x1_0000_0000 == Sum(WordsIn(data, order)) % 0x1_0000_0000
  }

  lemma WrapAdd(sum: nat, x: nat, rest: nat, total: nat)
    requires (sum + (x + rest)) % 0x1_0000_0000 == total % 0x1_0000_0000
    ensures ((sum + x) % 0x1_0000_0000 + rest) % 0x1_0000_0000 == total % 0x1_0000_0000
  {
    var k := (sum + x) / 0x1_0000_0000;
    assert sum + x == 0x1_0000_0000 * k + (sum + x) % 0x1_0000_0000;
  }

  lemma NextWord(data: seq<Byte>, w: nat, order: Order, sum: nat)
    requires Accumulated(data, w, order, sum) && w < |data|
    ensures var b, next := if w + 1 < |data| then data[w + 1] else 0, if w + 1 < |data| then w + 2 else w + 1;
            Accumulated(data, next, order, (sum + LoadWord(data[w], b, order)) % 0x1_0000_0000)
  {
    hide LoadWord;
    if w + 1 < |data| {
      assert data[w..][2..] == data[w + 2..];
      WrapAdd(sum, LoadWord(data[w], data[w + 1], order), Sum(WordsIn(data[w + 2..], order)),
              Sum(WordsIn(data, order)));
    } else {
      assert data[w..] == [data[w]] && data[w + 1..] == [];
      assert WordsIn([data[w]], order) == [LoadWord(data[w], 0, order)];
      assert Sum([LoadWord(data[w], 0, order)]) == LoadWord(data[w], 0, order);
      WrapAdd(sum, LoadWord(data[w], 0, order), 0, Sum(WordsIn(data, order)));
    }
  }

  lemma NothingAdded(data: seq<Byte>, order: Order)
    ensures Accumulated(data, 0, order, 0)
  {
    assert data[0..] == data;
  }

  lemma AllAdded(data: seq<Byte>, w: nat, order: Order, sum: nat)
    requires Accumulated(data, w, order, sum) && w == |data|
    ensures sum == Sum(WordsIn(data, order)) % 0x1_0000_0000
  {
    assert data[w..] == [];
  }

  /** What in_cksum makes of a sum that may have wrapped. */
  lemma FoldedSum(data: seq<Byte>, order: Order)
    requires |data| <= 0x7fff_ffff
    ensures var total := Sum(WordsIn(data, order));
            && (0xffff - Canon(total % 0x1_0000_0000) == Rfc1071(data, order) <==> total < 0x1_0000_0000)
            && (|data| <= 131074 ==> total < 0x1_0000_0000)
  {
    hide WordsIn;
    hide Sum;
    hide Canon;
    OnesSumIsCanon(WordsIn(data, order));
    WordCount(data, order);
    SumBound(WordsIn(data, order));
    WrapExact(Sum(WordsIn(data, order)));
  }

  method InCksum(data: seq<Byte>, order: Order) returns (answer: Word)
    requires |data| <= 0x7fff_ffff
    ensures answer == Rfc1071(data, order) <==> Sum(WordsIn(data, order)) < 0x1_0000_0000
    ensures |data| <= 131074 ==> answer == Rfc1071(data, order)
  {
    hide WordsIn;
    hide Sum;
    hide Canon;
    hide Rfc1071;
    hide Accumulated;
    var nleft := |data|;
    var sum: nat := 0;
    var w := 0;
    answer := 0;
    NothingAdded(data, order);
    while nleft > 1
      invariant 0 <= nleft && w + nleft == |data|
      invariant Accumulated(data, w, order, sum)
    {
      NextWord(data, w, order, sum);
      sum := (sum + LoadWord(data[w], data[w + 1], order)) % 0x1_0000_0000;
      w := w + 2;
      nleft := nleft - 2;
    }
    if nleft == 1 {
      NextWord(data, w, order, sum);
      answer := LoadWord(data[w], 0, order);
      sum := (sum + answer) % 0x1_0000_0000;
      w := w + 1;
    }
    AllAdded(data, w, order, sum);
    TwoFolds(sum);
    FoldedSum(data, order);
    sum := sum / 0x1_0000 + sum % 0x1_0000;
    sum := sum + sum / 0x1_0000;
    answer := 0xffff - sum % 0x1_0000;
  }

  // ----- the bound on the length is tight -----

  lemma {:induction false} SumOfFull(data: seq<Byte>, order: Order)
    requires forall i :: 0 <= i < |data| ==> data[i] == 0xff
    ensures Sum(WordsIn(data, order)) >= 0xffff * (|data| / 2) + 0xff * (|data| % 2)
  {
    if |data| > 1 {
      SumOfFull(data[2..], order);
    }
  }

  /** A length is safe for every message of that length exactly up to 131074 bytes. */
  lemma SafeLengths(n: nat, order: Order)
    ensures (forall data: seq<Byte> | |data| == n :: Sum(WordsIn(data, order)) < 0x1_0000_0000) <==> n <= 131074
  {
    if n <= 131074 {
      forall data: seq<Byte> | |data| == n ensures Sum(WordsIn(data, order)) < 0x1_0000_0000 {
        WordCount(data, order);
        SumBound(WordsIn(data, order));
      }
    } else {
      var full: seq<Byte> := seq(n, _ => 0xff);
      SumOfFull(full, order);
      assert |full| == n && Sum(WordsIn(full, order)) >= 0x1_0000_0000;
    }
  }

  // ----- storing and verifying -----

  lemma FirstWord(d: seq<Byte>, order: Order)
    requires |d| >= 2
    ensures WordsIn(d, order) == [LoadWord(d[0], d[1], order)] + WordsIn(d[2..], order)
  {
  }

  lemma {:induction false} WordsInConcat(a: seq<Byte>, b: seq<Byte>, order: Order)
    requires |a| % 2 == 0
    ensures WordsIn(a + b, order) == WordsIn(a, order) + WordsIn(b, order)
  {
    if a == [] {
      assert a + b == b;
    } else {
      hide WordsIn;
      hide LoadWord;
      WordsInConcat(a[2..], b, order);
      FirstWord(a, order);
      FirstWord(a + b, order);
      assert (a + b)[2..] == a[2..] + b;
    }
  }

  lemma {:induction false} SumConcat(v: seq<Word>, w: seq<Word>)
    ensures Sum(v + w) == Sum(v) + Sum(w)
  {
    if v == [] {
      assert v + w == w;
    } else {
      SumConcat(v[1..], w);
      assert (v + w)[1..] == v[1..] + w;
    }
  }

  lemma SumPieces(a: seq<Byte>, b: seq<Byte>, order: Order)
    requires |a| % 2 == 0
    ensures Sum(WordsIn(a + b, order)) == Sum(WordsIn(a, order)) + Sum(WordsIn(b, order))
  {
    WordsInConcat(a, b, order);
    SumConcat(WordsIn(a, order), WordsIn(b, order));
  }

  lemma SumOfStored(w: Word, order: Order)
    ensures Sum(WordsIn(StoreWord(w, order), order)) == w
  {
    var b := StoreWord(w, order);
    assert b[2..] == [];
    assert WordsIn(b, order) == [w];
  }

  /** The message with a word stored over two bytes. */
  function Stored(data: seq<Byte>, at: nat, w: Word, order: Order): (r: seq<Byte>)
    requires at + 2 <= |data|
    ensures |r| == |data|
  {
    data[..at] + StoreWord(w, order) + data[at + 2..]
  }

  lemma ZeroStored(order: Order)
    ensures StoreWord(0, order) == [0, 0]
  {
  }

  lemma SumStored(data: seq<Byte>, at: nat, w: Word, order: Order)
    requires at + 2 <= |data| && at % 2 == 0 && data[at] == data[at + 1] == 0
    ensures Sum(WordsIn(Stored(data, at, w, order), order)) == Sum(WordsIn(data, order)) + w
  {
    hide StoreWord;
    hide WordsIn;
    hide Sum;
    var a, c := data[..at], data[at + 2..];
    SumPieces(a, StoreWord(w, order) + c, order);
    SumPieces(StoreWord(w, order), c, order);
    assert Stored(data, at, w, order) == a + (StoreWord(w, order) + c);
    SumOfStored(w, order);
    SumPieces(a, StoreWord(0, order) + c, order);
    SumPieces(StoreWord(0, order), c, order);
    ZeroStored(order);
    assert data == a + (StoreWord(0, order) + c);
    SumOfStored(0, order);
  }

  /** A checksum in its zeroed field makes the whole message verify: its checksum is zero.
      Storing 0xffff where the checksum came out zero verifies as well. */
  lemma StoredVerifies(data: seq<Byte>, at: nat, order: Order)
    requires at + 2 <= |data| && at % 2 == 0 && data[at] == data[at + 1] == 0
    ensures Rfc1071(Stored(data, at, Rfc1071(data, order), order), order) == 0
    ensures Rfc1071(data, order) == 0 ==> Rfc1071(Stored(data, at, 0xffff, order), order) == 0
  {
    hide WordsIn;
    hide Sum;
    hide Canon;
    hide OnesSum;
    var t := Sum(WordsIn(data, order));
    var c := Rfc1071(data, order);
    OnesSumIsCanon(WordsIn(data, order));
    SumStored(data, at, c, order);
    OnesSumIsCanon(WordsIn(Stored(data, at, c, order), order));
    SumStored(data, at, 0xffff, order);
    OnesSumIsCanon(WordsIn(Stored(data, at, 0xffff, order), order));
    CanonComplement(t);
  }

  lemma CanonComplement(t: nat)
    ensures Canon(t + (0xffff - Canon(t))) == 0xffff
    ensures Canon(t) == 0xffff ==> Canon(t + 0xffff) == 0xffff
  {
    if t == 0 {
      assert Canon(0xffff) == 0xffff;
    } else {
      var q := (t - 1) / 0xffff;
      assert t == 0xffff * q + Canon(t);
      CanonUnique(t + (0xffff - Canon(t)), q, 0xffff);
      if Canon(t) == 0xffff {
        CanonUnique(t + 0xffff, q, 2 * 0xffff);
      }
    }
  }

  // ----- independence of byte order and of word order -----

  function Swap(w: Word): Word { w % 256 * 256 + w / 256 }

  lemma SwapIsTimes256(t: nat, u: nat, q: nat)
    requires u == 256 * t - 0xffff * q && (t == 0 <==> u == 0)
    ensures Canon(u) == Swap(Canon(t))
  {
    if t > 0 {
      var c := Canon(t);
      var p := (t - 1) / 0xffff;
      assert t == 0xffff * p + c;
      var s := Swap(c);
      assert 256 * c == 0xffff * (c / 256) + s by {
        assert c == 256 * (c / 256) + c % 256;
      }
      var m := 256 * p + c / 256 - q;
      assert u == 0xffff * m + s;
      assert m >= 0;
      CanonUnique(u, m, s);
    }
  }

  lemma {:induction false} SumInOtherOrder(data: seq<Byte>) returns (q: nat)
    ensures var t, u := Sum(WordsIn(data, LittleEndian)), Sum(WordsIn(data, BigEndian));
            u == 256 * t - 0xffff * q && (t == 0 <==> u == 0)
    decreases |data|
  {
    if data == [] {
      q := 0;
    } else {
      var rest := if |data| == 1 then [] else data[2..];
      var b: Byte := if |data| == 1 then 0 else data[1];
      var p := SumInOtherOrder(rest);
      q := p + b;
      assert LoadWord(data[0], b, BigEndian) == 256 * LoadWord(data[0], b, LittleEndian) - 0xffff * b;
      assert WordsIn(data, LittleEndian) == [LoadWord(data[0], b, LittleEndian)] + WordsIn(rest, LittleEndian);
      assert WordsIn(data, BigEndian) == [LoadWord(data[0], b, BigEndian)] + WordsIn(rest, BigEndian);
    }
  }

  /** Section 2(B) of RFC 1071: hosts of either byte order store the same two bytes. */
  lemma ByteOrderIndependent(data: seq<Byte>)
    ensures StoreWord(Rfc1071(data, LittleEndian), LittleEndian) == StoreWord(Rfc1071(data, BigEndian), BigEndian)
  {
    hide Swap;
    hide Canon;
    hide StoreWord;
    hide WordsIn;
    hide Sum;
    hide OnesSum;
    OnesSumIsCanon(WordsIn(data, LittleEndian));
    OnesSumIsCanon(WordsIn(data, BigEndian));
    var q := SumInOtherOrder(data);
    SwapIsTimes256(Sum(WordsIn(data, LittleEndian)), Sum(WordsIn(data, BigEndian)), q);
    ComplementSwapped(OnesSum(WordsIn(data, LittleEndian)));
  }

  lemma ComplementSwapped(x: Word)
    ensures StoreWord(0xffff - x, LittleEndian) == StoreWord(0xffff - Swap(x), BigEndian)
  {
    var h, l := x / 256, x % 256;
    HighLow(0xffff - x, 255 - h, 255 - l);
    HighLow(0xffff - Swap(x), 255 - l, 255 - h);
  }

  lemma HighLow(v: Word, h: Byte, l: Byte)
    requires v == 256 * (h as int) + l
    ensures v / 256 == h && v % 256 == l
  {
  }

  lemma {:induction false} SumTakeOut(ws: seq<Word>, i: nat, rest: seq<Word>)
    requires i < |ws| && rest == ws[..i] + ws[i + 1..]
    ensures Sum(ws) == ws[i] + Sum(rest)
    ensures multiset(ws) == multiset{ws[i]} + multiset(rest)
  {
    SumConcat(ws[..i], ws[i..]);
    SumConcat(ws[..i], ws[i + 1..]);
    assert ws == ws[..i] + ws[i..] && ws[i..] == [ws[i]] + ws[i + 1..];
    assert multiset(ws) == multiset(ws[..i]) + multiset(ws[i..]);
  }

  lemma Cancel(m: multiset<Word>, n: multiset<Word>, x: Word)
    requires multiset{x} + m == multiset{x} + n
    ensures m == n
  {
    assert m == (multiset{x} + m) - multiset{x};
    assert n == (multiset{x} + n) - multiset{x};
  }

  lemma {:induction false} SumOfSameWords(v: seq<Word>, w: seq<Word>)
    requires multiset(v) == multiset(w)
    ensures Sum(v) == Sum(w)
    decreases |v|
  {
    hide Sum;
    if v == [] {
      assert |multiset(w)| == |w| && |multiset(v)| == 0;
    } else {
      var rest := FirstTakenOut(v, w);
      SumOfSameWords(v[1..], rest);
    }
  }

  /** What is left of w without the first word of v. */
  lemma FirstTakenOut(v: seq<Word>, w: seq<Word>) returns (rest: seq<Word>)
    requires v != [] && multiset(v) == multiset(w)
    ensures multiset(v[1..]) == multiset(rest)
    ensures Sum(v) == v[0] + Sum(v[1..]) && Sum(w) == v[0] + Sum(rest)
  {
    hide Sum;
    assert v[0] in multiset(v);
    var i :| 0 <= i < |w| && w[i] == v[0];
    rest := w[..i] + w[i + 1..];
    SumTakeOut(w, i, rest);
    SumTakeOut(v, 0, v[1..]);
    Cancel(multiset(v[1..]), multiset(rest), v[0]);
  }

  /** The order of the 16-bit words does not matter. */
  lemma WordOrderIndependent(v: seq<Word>, w: seq<Word>)
    requires multiset(v) == multiset(w)
    ensures OnesSum(v) == OnesSum(w)
  {
    SumOfSameWords(v, w);
    OnesSumIsCanon(v);
    OnesSumIsCanon(w);
  }
}
