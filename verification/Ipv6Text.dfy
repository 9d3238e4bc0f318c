/** The text forms of IPv6 addresses: what inet_pton6 accepts and what inet_ntop6 prints. */
module Ipv6Text {
  import opened Text
  import opened Ipv4Text

  // ----- hexadecimal groups -----

  predicate IsHexDigit(c: char) { IsDigit(c) || 'a' <= c <= 'f' || 'A' <= c <= 'F' }

  function HexDigitVal(c: char): (d: nat)
    requires IsHexDigit(c)
    ensures d < 16
  {
    if IsDigit(c) then DigitVal(c)
    else if 'a' <= c <= 'f' then c as int - 'a' as int + 10
    else c as int - 'A' as int + 10
  }

  predicate AllHex(s: string) { forall i :: 0 <= i < |s| ==> IsHexDigit(s[i]) }

  function HexVal(s: string): nat
    requires AllHex(s)
  {
    if s == "" then 0 else 16 * HexVal(Front(s)) + HexDigitVal(Last(s))
  }

  /** Hex digits worth at most 0xffff, possibly none yet. */
  predicate OpenGroup(g: string) { AllHex(g) && HexVal(g) <= 0xffff }

  predicate HexGroup(g: string) { g != "" && OpenGroup(g) }

  // ----- the language of inet_pton6 -----

  /** The bytes collected so far and, if "::" was seen, how many stand before it. */
  datatype Scan = Scan(bytes: seq<Byte>, gap: Option<nat>)

  ghost predicate ScanOk(a: Scan) { |a.bytes| <= 16 && (a.gap.Some? ==> a.gap.value <= |a.bytes|) }

  /** One group that a colon follows. */
  function AddGroup(a: Scan, g: string): (r: Option<Scan>)
    ensures r.Some? && ScanOk(a) ==> ScanOk(r.value)
  {
    if g == "" then
      if a.gap.Some? then None else Some(a.(gap := Some(|a.bytes|)))
    else if HexGroup(g) && |a.bytes| + 2 <= 16 then
      Some(a.(bytes := a.bytes + WordBytes(HexVal(g))))
    else None
  }

  function ScanGroups(gs: seq<string>): (r: Option<Scan>)
    ensures r.Some? ==> ScanOk(r.value)
  {
    if gs == [] then Some(Scan([], None))
    else match ScanGroups(Front(gs))
      case None => None
      case Some(a) => AddGroup(a, Last(gs))
  }

  /** The group that ends the text: nothing, a hex group, or a dotted quad. */
  function AddLast(a: Scan, g: string): (r: Option<Scan>)
    ensures r.Some? && ScanOk(a) ==> ScanOk(r.value)
  {
    if g == "" then Some(a)
    else if HexGroup(g) && |a.bytes| + 2 <= 16 then Some(a.(bytes := a.bytes + WordBytes(HexVal(g))))
    else if IsQuad(g) && |a.bytes| + 4 <= 16 then Some(a.(bytes := a.bytes + QuadBytes(g)))
    else None
  }

  /** "::" stands for the missing zero bytes. With none missing it blanks what follows it. */
  function FillGap(a: Scan): (r: Option<seq<Byte>>)
    requires ScanOk(a)
    ensures r.Some? ==> |r.value| == 16
  {
    match a.gap
    case None => if |a.bytes| == 16 then Some(a.bytes) else None
    case Some(k) =>
      if |a.bytes| < 16 then Some(a.bytes[..k] + Zeros(16 - |a.bytes|) + a.bytes[k..])
      else Some(a.bytes[..k] + Zeros(16 - k))
  }

  function ParseGroups(gs: seq<string>): (r: Option<seq<Byte>>)
    requires gs != []
    ensures r.Some? ==> |r.value| == 16
  {
    match ScanGroups(Front(gs))
    case None => None
    case Some(a) =>
      match AddLast(a, Last(gs))
      case None => None
      case Some(b) => FillGap(b)
  }

  /** A leading colon must be one of two, and only the second one counts. */
  predicate BadStart(s: string) { s != "" && s[0] == ':' && (|s| < 2 || s[1] != ':') }

  function Body(s: string): string { if s != "" && s[0] == ':' then s[1..] else s }

  function Parse6(s: string): (r: Option<seq<Byte>>)
    ensures r.Some? ==> |r.value| == 16
  {
    if BadStart(s) then None else ParseGroups(Split(Body(s), ':'))
  }

  // ----- the text inet_ntop6 prints -----

  /** What printf's %x writes. */
  function HexText(n: nat): (s: string)
    ensures s != ""
  {
    if n < 16 then [HexChar(n)] else HexText(n / 16) + [HexChar(n % 16)]
  }

  function HexChar(d: nat): (c: char)
    requires d < 16
    ensures c == "0123456789abcdef"[d]
  {
    if d < 10 then DigitChar(d) else 'a' + (d - 10) as char
  }

  function HexTexts(w: seq<Word>): (r: seq<string>)
    ensures |r| == |w|
  {
    seq(|w|, i requires 0 <= i < |w| => HexText(w[i]))
  }

  function WordsOf(b: seq<Byte>): (w: seq<Word>)
    requires |b| == 16
    ensures |w| == 8
  {
    seq(8, i requires 0 <= i < 8 => 256 * (b[2 * i] as int) + b[2 * i + 1])
  }

  function BytesOf(w: seq<Word>): (b: seq<Byte>)
    ensures |b| == 2 * |w|
  {
    if w == [] then [] else BytesOf(Front(w)) + WordBytes(Last(w))
  }

  predicate ZeroRun(w: seq<Word>, from: int, to: int) {
    0 <= from <= to <= |w| && forall i :: from <= i < to ==> w[i] == 0
  }

  /** A run of zero words that no other run exceeds, and the leftmost of that length. */
  ghost predicate LeftmostLongest(w: seq<Word>, base: int, len: int) {
    && ZeroRun(w, base, base + len)
    && forall s, t :: ZeroRun(w, s, t) ==> t - s <= len && (t - s == len > 0 ==> base <= s)
  }

  lemma LeftmostLongestUnique(w: seq<Word>, b: int, n: int, b': int, n': int)
    requires LeftmostLongest(w, b, n) && LeftmostLongest(w, b', n')
    ensures n == n' && (n > 0 ==> b == b')
  {
    assert ZeroRun(w, b, b + n) && ZeroRun(w, b', b' + n');
  }

  /** Which words "::" replaces, if any: never a single one. */
  datatype Run = NoRun | Run(base: nat, len: nat)

  ghost predicate Shortens(w: seq<Word>, r: Run) {
    match r
    case NoRun => forall s, t :: ZeroRun(w, s, t) ==> t - s < 2
    case Run(base, len) => len >= 2 && LeftmostLongest(w, base, len)
  }

  /** The two shapes printed with a dotted quad. */
  predicate EmbedsQuad(w: seq<Word>, r: Run)
    requires |w| == 8
  {
    r.Run? && r.base == 0 && (r.len == 6 || (r.len == 5 && w[5] == 0xffff))
  }

  function TextOf(b: seq<Byte>, r: Run): string
    requires |b| == 16
    requires r.Run? ==> r.base + r.len <= 8
  {
    var w := WordsOf(b);
    if r.NoRun? then Join(HexTexts(w), ':')
    else if EmbedsQuad(w, r) then (if r.len == 6 then "::" else "::ffff:") + QuadText(b[12..])
    else Join(HexTexts(w[..r.base]), ':') + "::" + Join(HexTexts(w[r.base + r.len..]), ':')
  }

  /** The printed form: the text shortened at the leftmost longest zero run of two words or more. */
  ghost predicate Prints(b: seq<Byte>, text: string) {
    |b| == 16 && exists r :: Shortens(WordsOf(b), r) && text == TextOf(b, r)
  }
}
