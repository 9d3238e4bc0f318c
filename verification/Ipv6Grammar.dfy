/** The text forms of section 2.2 of RFC 4291, and exactly what else inet_pton6 accepts. */
module Ipv6Grammar {
  import opened Text
  import opened Ipv4Text
  import opened Ipv6Text
  import opened Ipv6Words

  // ----- the grammar of the RFC -----

  /** One to four hexadecimal digits. */
  predicate HexField(g: string) { 1 <= |g| <= 4 && AllHex(g) }

  function Fields(t: string): seq<string> { if t == "" then [] else Split(t, ':') }

  predicate PlainFields(fs: seq<string>) { forall i :: 0 <= i < |fs| ==> HexField(fs[i]) }

  /** Hexadecimal fields, of which the last may be a dotted quad. */
  predicate MixedFields(fs: seq<string>) {
    fs == [] || (PlainFields(Front(fs)) && (HexField(Last(fs)) || IsQuad(Last(fs))))
  }

  function FieldBytes(g: string): seq<Byte> {
    if HexGroup(g) then WordBytes(HexVal(g)) else if IsQuad(g) then QuadBytes(g) else []
  }

  function AllBytes(fs: seq<string>): seq<Byte> {
    if fs == [] then [] else AllBytes(Front(fs)) + FieldBytes(Last(fs))
  }

  /** The text s denotes the address b, "::" standing for one or more groups of zeros. */
  ghost predicate Rfc4291(s: string, b: seq<Byte>) {
    || (MixedFields(Fields(s)) && b == AllBytes(Fields(s)) && |b| == 16)
    || exists front, back :: s == front + "::" + back && Compressed(front, back, b)
  }

  ghost predicate Compressed(front: string, back: string, b: seq<Byte>) {
    var x, y := AllBytes(Fields(front)), AllBytes(Fields(back));
    && PlainFields(Fields(front)) && MixedFields(Fields(back))
    && |x| + |y| <= 14 && b == x + Zeros(16 - |x| - |y|) + y
  }

  // ----- the three ways of going beyond it -----

  /** A field without a dot has more than four characters. */
  predicate LongField(s: string) {
    var p := Split(s, ':');
    exists i :: 0 <= i < |p| && '.' !in p[i] && |p[i]| > 4
  }

  /** The text ends in one colon and not in two. */
  predicate ColonLast(s: string) { |s| >= 2 && s[|s| - 1] == ':' && s[|s| - 2] != ':' }

  predicate HasGap(s: string) { exists i :: 0 <= i < |s| - 1 && s[i] == ':' && s[i + 1] == ':' }

  /** How many groups are written out, a dotted quad counting for two. */
  function Groups(p: seq<string>): nat {
    if p == [] then 0 else Groups(Front(p)) + if Last(p) == "" then 0 else if '.' in Last(p) then 2 else 1
  }

  /** "::" although eight groups are written out and nothing is left for it to stand for. */
  predicate GapInFull(s: string) { HasGap(s) && Groups(Split(s, ':')) >= 8 }

  // ----- fields -----

  predicate HexGroups(fs: seq<string>) { forall i :: 0 <= i < |fs| ==> HexGroup(fs[i]) }

  predicate LastField(g: string) { HexGroup(g) || IsQuad(g) }

  lemma {:induction false} HexValBound(g: string)
    requires AllHex(g)
    ensures HexVal(g) < Pow16(|g|)
  {
    if g != "" {
      HexValBound(Front(g));
      assert Pow16(|g|) == 16 * Pow16(|g| - 1);
    }
  }

  lemma {:induction false} Pow16Grows(m: nat, n: nat)
    requires m <= n
    ensures 1 <= Pow16(m) <= Pow16(n)
  {
    if m < n {
      Pow16Grows(m, n - 1);
    } else if m > 0 {
      Pow16Grows(m - 1, n - 1);
    }
  }

  /** Four digits cannot exceed 0xffff; more than four may still be worth no more. */
  lemma HexFieldIs(g: string)
    ensures HexField(g) <==> HexGroup(g) && |g| <= 4
  {
    if HexField(g) {
      HexValBound(g);
      Pow16Grows(|g|, 4);
      assert Pow16(4) == 16 * Pow16(3) == 256 * Pow16(2) == 0x1_0000;
    }
  }

  lemma HexHasNo(g: string)
    requires HexGroup(g)
    ensures '.' !in g && ':' !in g && !IsQuad(g)
  {
    if IsQuad(g) {
      SplitNoSep(g, '.');
    }
  }

  lemma QuadHas(g: string)
    requires IsQuad(g)
    ensures g != "" && '.' in g && ':' !in g && |QuadBytes(g)| == 4 && !HexGroup(g)
  {
    if '.' !in g {
      SplitNoSep(g, '.');
    }
    var p := Split(g, '.');
    if ':' in g {
      var i :| 0 <= i < |g| && g[i] == ':';
      ColonSurvives(g, i);
    }
  }

  /** A character that is not the separator is found again in one of the pieces. */
  lemma {:induction false} ColonSurvives(s: string, i: nat)
    requires i < |s| && s[i] != '.'
    ensures exists k :: 0 <= k < |Split(s, '.')| && s[i] in Split(s, '.')[k]
  {
    var p, q := Split(s, '.'), Split(Front(s), '.');
    assert s == Front(s) + [Last(s)];
    SplitSnoc(Front(s), Last(s), '.');
    if i == |s| - 1 {
      assert s[i] in Last(p);
    } else {
      ColonSurvives(Front(s), i);
      var k :| 0 <= k < |q| && s[i] in q[k];
      assert s[i] in p[k];
    }
  }

  // ----- scanning -----

  lemma {:induction false} AllBytesConcat(f: seq<string>, g: seq<string>)
    ensures AllBytes(f + g) == AllBytes(f) + AllBytes(g)
  {
    hide FieldBytes;
    if g == [] {
      assert f + g == f;
    } else {
      AllBytesConcat(f, Front(g));
      AppendLast(f, g);
    }
  }

  lemma {:induction false} GroupsConcat(f: seq<string>, g: seq<string>)
    ensures Groups(f + g) == Groups(f) + Groups(g)
  {
    if g == [] {
      assert f + g == f;
    } else {
      GroupsConcat(f, Front(g));
      AppendLast(f, g);
    }
  }

  /** Fields as inet_pton6 takes them: hex groups of any length, the last perhaps a quad. */
  predicate LooseFields(fs: seq<string>) { fs == [] || (HexGroups(Front(fs)) && LastField(Last(fs))) }

  lemma {:induction false} BytesPerGroup(fs: seq<string>)
    requires HexGroups(fs)
    ensures |AllBytes(fs)| == 2 * Groups(fs)
  {
    if fs != [] {
      assert HexGroup(Last(fs));
      HexHasNo(Last(fs));
      BytesPerGroup(Front(fs));
    }
  }

  lemma LooseBytesPerGroup(fs: seq<string>)
    requires LooseFields(fs)
    ensures |AllBytes(fs)| == 2 * Groups(fs)
  {
    if fs != [] {
      BytesPerGroup(Front(fs));
      if IsQuad(Last(fs)) {
        QuadHas(Last(fs));
      } else {
        HexHasNo(Last(fs));
      }
    }
  }

  /** Hex groups add their bytes as long as these fit. */
  lemma {:induction false} ScanMore(gs: seq<string>, fs: seq<string>)
    requires ScanGroups(gs).Some? && HexGroups(fs)
    requires |ScanGroups(gs).value.bytes| + |AllBytes(fs)| <= 16
    ensures ScanGroups(gs + fs) == Some(ScanGroups(gs).value.(bytes := ScanGroups(gs).value.bytes + AllBytes(fs)))
  {
    var a := ScanGroups(gs).value;
    if fs == [] {
      assert gs + fs == gs && a.bytes + [] == a.bytes;
    } else {
      assert HexGroup(Last(fs));
      ScanMore(gs, Front(fs));
      AppendLast(gs, fs);
      assert a.bytes + AllBytes(Front(fs)) + FieldBytes(Last(fs)) == a.bytes + AllBytes(fs);
    }
  }

  /** What the scanned groups must have been; j is the place of the empty one. */
  ghost predicate Shape(gs: seq<string>, a: Scan, j: nat) {
    match a.gap
    case None => HexGroups(gs) && a.bytes == AllBytes(gs)
    case Some(k) =>
      && j < |gs| && gs[j] == "" && HexGroups(gs[..j]) && HexGroups(gs[j + 1..])
      && k == |AllBytes(gs[..j])| && a.bytes == AllBytes(gs[..j]) + AllBytes(gs[j + 1..])
  }

  lemma ShapeGap(gs: seq<string>, a: Scan)
    requires a.gap.None? && Shape(gs, a, 0)
    ensures Shape(gs + [""], a.(gap := Some(|a.bytes|)), |gs|)
  {
    hide FieldBytes;
    hide AllBytes;
    hide HexGroup;
    var all := gs + [""];
    assert all[..|gs|] == gs && all[|gs| + 1..] == [];
    NoBytes();
    assert a.bytes + [] == a.bytes;
  }

  lemma NoBytes()
    ensures AllBytes([]) == []
  {
  }

  lemma ShapeField(gs: seq<string>, a: Scan, j: nat, g: string)
    requires Shape(gs, a, j) && HexGroup(g)
    ensures Shape(gs + [g], a.(bytes := a.bytes + FieldBytes(g)), j)
  {
    hide FieldBytes;
    hide AllBytes;
    hide HexGroup;
    OneField(g);
    if a.gap.Some? {
      assert (gs + [g])[..j] == gs[..j];
      assert (gs + [g])[j + 1..] == gs[j + 1..] + [g];
      AllBytesConcat(gs[j + 1..], [g]);
      assert a.bytes + FieldBytes(g) == AllBytes(gs[..j]) + (AllBytes(gs[j + 1..]) + FieldBytes(g));
    } else {
      AllBytesConcat(gs, [g]);
    }
  }

  lemma AddGroupCases(a: Scan, g: string)
    requires AddGroup(a, g).Some?
    ensures g == "" ==> a.gap.None? && AddGroup(a, g).value == a.(gap := Some(|a.bytes|))
    ensures g != "" ==> HexGroup(g) && AddGroup(a, g).value == a.(bytes := a.bytes + FieldBytes(g))
  {
  }

  lemma {:induction false} ScanShape(gs: seq<string>) returns (j: nat)
    requires ScanGroups(gs).Some?
    ensures Shape(gs, ScanGroups(gs).value, j)
  {
    hide Shape;
    hide AddGroup;
    hide HexGroup;
    hide FieldBytes;
    if gs == [] {
      j := 0;
      EmptyShape();
    } else {
      j := ScanShape(Front(gs));
      var a, g := ScanGroups(Front(gs)).value, Last(gs);
      AddGroupCases(a, g);
      assert gs == Front(gs) + [g];
      if g == "" {
        AnyPlace(Front(gs), a, j);
        ShapeGap(Front(gs), a);
        j := |Front(gs)|;
      } else {
        ShapeField(Front(gs), a, j, g);
      }
    }
  }

  lemma EmptyShape()
    ensures Shape([], Scan([], None), 0)
  {
  }

  lemma AnyPlace(gs: seq<string>, a: Scan, j: nat)
    requires Shape(gs, a, j) && a.gap.None?
    ensures Shape(gs, a, 0)
  {
  }

  lemma OneField(g: string)
    ensures AllBytes([g]) == FieldBytes(g)
  {
    assert Front([g]) == [] && [] + FieldBytes(g) == FieldBytes(g);
  }

  // ----- pieces of the text -----

  lemma {:induction false} LastPieceEmpty(s: string, sep: char)
    ensures Last(Split(s, sep)) == "" <==> s == "" || Last(s) == sep
  {
    if s != "" {
      assert s == Front(s) + [Last(s)];
      SplitSnoc(Front(s), Last(s), sep);
    }
  }

  lemma ColonLastPieces(s: string)
    ensures var p := Split(s, ':');
            ColonLast(s) <==> |p| >= 2 && p[|p| - 1] == "" && p[|p| - 2] != ""
  {
    hide Split;
    var p := Split(s, ':');
    LastPieceEmpty(s, ':');
    SplitEmpty(':');
    if s != "" && Last(s) == ':' {
      var t := Front(s);
      assert s == t + [':'];
      SplitSnoc(t, ':', ':');
      LastPieceEmpty(t, ':');
      assert p[|p| - 2] == Last(Split(t, ':'));
    }
  }

  /** Two colons in a row leave an empty piece between them. */
  lemma GapPiece(s: string)
    requires HasGap(s)
    ensures exists j :: 0 < j < |Split(s, ':')| - 1 && Split(s, ':')[j] == ""
  {
    hide Split;
    var i :| 0 <= i < |s| - 1 && s[i] == ':' && s[i + 1] == ':';
    var x, y := s[..i], s[i + 2..];
    assert s == x + [':'] + (":" + y) && ":" + y == "" + [':'] + y;
    SplitConcat(x, ":" + y, ':');
    SplitConcat("", y, ':');
    SplitEmpty(':');
    assert Split(s, ':')[|Split(x, ':')|] == "";
  }

  lemma GapShows(front: string, back: string)
    ensures HasGap(front + "::" + back)
  {
    var s := front + "::" + back;
    assert s[|front|] == ':' && s[|front| + 1] == ':';
  }

  lemma PlainIsLoose(fs: seq<string>)
    ensures PlainFields(fs) ==> HexGroups(fs)
    ensures MixedFields(fs) ==> LooseFields(fs)
  {
    forall i | 0 <= i < |fs| ensures HexField(fs[i]) ==> HexGroup(fs[i]) {
      HexFieldIs(fs[i]);
    }
    if fs != [] {
      assert forall i :: 0 <= i < |fs| - 1 ==> Front(fs)[i] == fs[i];
      assert Last(fs) == fs[|fs| - 1];
    }
  }

  lemma LooseNotEmpty(fs: seq<string>)
    requires LooseFields(fs)
    ensures forall i :: 0 <= i < |fs| ==> fs[i] != "" && ':' !in fs[i]
  {
    forall i | 0 <= i < |fs| ensures fs[i] != "" && ':' !in fs[i] {
      if i < |fs| - 1 {
        assert fs[i] == Front(fs)[i];
        HexHasNo(fs[i]);
      } else if IsQuad(Last(fs)) {
        QuadHas(Last(fs));
      } else {
        HexHasNo(Last(fs));
      }
    }
  }

  lemma FieldsOfJoin(fs: seq<string>)
    requires LooseFields(fs)
    ensures Fields(Join(fs, ':')) == fs
  {
    hide Split;
    hide LooseFields;
    if fs != [] {
      LooseNotEmpty(fs);
      SplitJoin(fs, ':');
      SplitEmpty(':');
      assert fs[0] != "";
    }
  }

  lemma JoinFields(t: string)
    ensures Join(Fields(t), ':') == t
  {
    JoinSplit(t, ':');
  }

  /** A text that may start is known by what follows its first colon. */
  lemma SameBody(s: string, t: string)
    requires !BadStart(s) && !BadStart(t) && Split(Body(s), ':') == Split(Body(t), ':')
    ensures s == t
  {
    hide Split;
    hide Join;
    JoinSplit(Body(s), ':');
    JoinSplit(Body(t), ':');
  }

  lemma BodyPieces(s: string)
    requires !BadStart(s)
    ensures s != "" && s[0] == ':' ==> Split(s, ':') == [""] + Split(Body(s), ':') && Split(Body(s), ':')[0] == ""
    ensures s == "" || s[0] != ':' ==> Split(s, ':') == Split(Body(s), ':')
  {
    hide Split;
    if s != "" && s[0] == ':' {
      assert s == "" + [':'] + Body(s);
      SplitConcat("", Body(s), ':');
      SplitEmpty(':');
      SplitStart(Body(s), ':');
    }
  }

  // ----- what is accepted -----

  lemma LastTaken(a: Scan, g: string)
    requires LastField(g) && |a.bytes| + |FieldBytes(g)| <= 16
    ensures AddLast(a, g) == Some(a.(bytes := a.bytes + FieldBytes(g)))
  {
    if IsQuad(g) {
      QuadHas(g);
    } else {
      HexHasNo(g);
    }
  }

  /** Loose fields behind groups already scanned, up to the end of the text. */
  lemma ScanToEnd(gs: seq<string>, fs: seq<string>, a: Scan)
    requires ScanGroups(gs) == Some(a) && ScanOk(a) && LooseFields(fs) && |a.bytes| + |AllBytes(fs)| <= 16
    ensures ParseGroups(gs + if fs == [] then [""] else fs) == FillGap(a.(bytes := a.bytes + AllBytes(fs)))
  {
    hide ScanGroups;
    hide ParseGroups;
    hide AddLast;
    hide FillGap;
    hide FieldBytes;
    if fs == [] {
      NothingLast(a);
      assert a.bytes + [] == a.bytes;
      ParseLast(gs, "", a, a);
    } else {
      ScanMore(gs, Front(fs));
      var b := a.(bytes := a.bytes + AllBytes(Front(fs)));
      LastTaken(b, Last(fs));
      assert b.bytes + FieldBytes(Last(fs)) == a.bytes + AllBytes(fs);
      ParseLast(gs + Front(fs), Last(fs), b, a.(bytes := a.bytes + AllBytes(fs)));
      assert gs + Front(fs) + [Last(fs)] == gs + fs;
    }
  }

  lemma PlainParse(fs: seq<string>)
    requires LooseFields(fs) && |AllBytes(fs)| == 16
    ensures Parse6(Join(fs, ':')) == Some(AllBytes(fs))
  {
    hide LooseFields;
    hide Split;
    hide Join;
    var s := Join(fs, ':');
    FieldsOfJoin(fs);
    LooseNotEmpty(fs);
    ScanNothing();
    ScanToEnd([], fs, Scan([], None));
    assert [] + fs == fs && [] + AllBytes(fs) == AllBytes(fs);
    assert fs != [] && s != "" && fs[0] != "";
    SplitStart(s, ':');
  }

  /** Any text with one "::", the full one included. */
  lemma GapParse(f: seq<string>, g: seq<string>)
    requires HexGroups(f) && LooseFields(g) && |AllBytes(f)| + |AllBytes(g)| <= 16
    ensures Parse6(Join(f, ':') + "::" + Join(g, ':')) ==
            FillGap(Scan(AllBytes(f) + AllBytes(g), Some(|AllBytes(f)|)))
  {
    hide *;
    var x, y := AllBytes(f), AllBytes(g);
    var s := Join(f, ':') + "::" + Join(g, ':');
    HexGroupsNotEmpty(f);
    GapTextOf(f, Join(g, ':'));
    EndPieces(g);
    ScanFront(f);
    ScanToEnd(f + [""], g, Scan(x, Some(|x|)));
    Parse6Of(s, f + [""] + if g == [] then [""] else g);
  }

  lemma HexGroupsNotEmpty(f: seq<string>)
    requires HexGroups(f)
    ensures forall i :: 0 <= i < |f| ==> f[i] != "" && ':' !in f[i]
  {
    forall i | 0 <= i < |f| ensures f[i] != "" && ':' !in f[i] {
      HexHasNo(f[i]);
    }
  }

  lemma EndPieces(g: seq<string>)
    requires LooseFields(g)
    ensures Split(Join(g, ':'), ':') == if g == [] then [""] else g
  {
    hide LooseFields;
    if g != [] {
      LooseNotEmpty(g);
      SplitJoin(g, ':');
    }
  }

  lemma ScanFront(f: seq<string>)
    requires HexGroups(f) && |AllBytes(f)| <= 16
    ensures ScanGroups(f + [""]) == Some(Scan(AllBytes(f), Some(|AllBytes(f)|)))
    ensures ScanOk(Scan(AllBytes(f), Some(|AllBytes(f)|)))
  {
    ScanNothing();
    ScanMore([], f);
    assert [] + f == f && [] + AllBytes(f) == AllBytes(f);
    AppendLast(f, [""]);
    assert f + Front([""]) == f;
  }

  ghost predicate LooseGap(s: string, b: seq<Byte>, f: seq<string>, g: seq<string>) {
    && s == Join(f, ':') + "::" + Join(g, ':') && HexGroups(f) && LooseFields(g)
    && |AllBytes(f)| + |AllBytes(g)| <= 16
    && FillGap(Scan(AllBytes(f) + AllBytes(g), Some(|AllBytes(f)|))) == Some(b)
  }

  ghost predicate Loose(s: string, b: seq<Byte>) {
    || (LooseFields(Fields(s)) && b == AllBytes(Fields(s)) && |b| == 16)
    || exists f, g :: LooseGap(s, b, f, g)
  }

  lemma NothingParses()
    ensures ParseGroups([""]) == None
  {
    assert Front([""]) == [];
  }

  lemma EndsInColon(s: string)
    requires !BadStart(s)
    requires var gs := Split(Body(s), ':'); |gs| >= 2 && Last(gs) == "" && gs[|gs| - 2] != ""
    ensures ColonLast(s)
  {
    hide Split;
    hide ColonLast;
    BodyPieces(s);
    ColonLastPieces(s);
  }

  lemma GapAccepted(s: string, b: seq<Byte>, f: seq<string>, g: seq<string>)
    requires !BadStart(s) && HexGroups(f) && LooseFields(g) && |AllBytes(f)| + |AllBytes(g)| <= 16
    requires Split(Body(s), ':') == f + [""] + if g == [] then [""] else g
    requires FillGap(Scan(AllBytes(f) + AllBytes(g), Some(|AllBytes(f)|))) == Some(b)
    ensures LooseGap(s, b, f, g)
  {
    hide *;
    HexGroupsNotEmpty(f);
    EndPieces(g);
    GapTextOf(f, Join(g, ':'));
    SameBody(s, Join(f, ':') + "::" + Join(g, ':'));
    LooseGapIs(s, b, f, g);
  }

  lemma LooseGapIs(s: string, b: seq<Byte>, f: seq<string>, g: seq<string>)
    requires s == Join(f, ':') + "::" + Join(g, ':') && HexGroups(f) && LooseFields(g)
    requires |AllBytes(f)| + |AllBytes(g)| <= 16
    requires FillGap(Scan(AllBytes(f) + AllBytes(g), Some(|AllBytes(f)|))) == Some(b)
    ensures LooseGap(s, b, f, g)
  {
    hide Join;
    hide LooseFields;
    hide AllBytes;
    hide HexGroups;
  }

  lemma AddLastCases(a: Scan, g: string)
    requires AddLast(a, g).Some? && g != ""
    ensures LastField(g) && AddLast(a, g) == Some(a.(bytes := a.bytes + FieldBytes(g)))
    ensures ScanOk(a) ==> |a.bytes| + |FieldBytes(g)| <= 16
  {
    if !HexGroup(g) {
      QuadHas(g);
    }
  }

  /** Groups without a gap, a hex group or a quad at the end. */
  lemma PlainAccepted(s: string, fr: seq<string>, last: string)
    requires !BadStart(s) && Split(Body(s), ':') == fr + [last] && HexGroups(fr) && LastField(last)
    ensures LooseFields(Fields(s)) && AllBytes(Fields(s)) == AllBytes(fr) + FieldBytes(last)
  {
    hide Split;
    var gs := fr + [last];
    AppendLast(fr, [last]);
    assert Front(gs) == fr;
    LooseNotEmpty(gs);
    BodyPieces(s);
    assert gs[0] != "";
    SplitEmpty(':');
  }

  lemma ParseParts(s: string, b: seq<Byte>)
    ensures Parse6(s) == Some(b) ==> !BadStart(s)
    ensures Parse6(s) == Some(b) ==>
            var gs := Split(Body(s), ':');
            && gs == Front(gs) + [Last(gs)] && (Last(gs) == "" ==> Front(gs) != [])
            && ScanGroups(Front(gs)).Some? && ScanOk(ScanGroups(Front(gs)).value)
            && AddLast(ScanGroups(Front(gs)).value, Last(gs)).Some?
            && ScanOk(AddLast(ScanGroups(Front(gs)).value, Last(gs)).value)
            && FillGap(AddLast(ScanGroups(Front(gs)).value, Last(gs)).value) == Some(b)
  {
    hide Split;
    NothingParses();
    var gs := Split(Body(s), ':');
    assert gs == Front(gs) + [Last(gs)];
  }

  lemma EmptyEnd(s: string, b: seq<Byte>, fr: seq<string>, a: Scan, j: nat)
    requires !BadStart(s) && Split(Body(s), ':') == fr + [""] && fr != []
    requires Shape(fr, a, j) && ScanOk(a) && FillGap(a) == Some(b)
    ensures ColonLast(s) || Loose(s, b)
  {
    hide Split;
    hide ColonLast;
    hide FillGap;
    hide LooseGap;
    if a.gap.Some? && j == |fr| - 1 {
      assert fr == fr[..j] + [""] && fr[j + 1..] == [];
      assert a == Scan(AllBytes(fr[..j]) + AllBytes([]), Some(|AllBytes(fr[..j])|));
      GapAccepted(s, b, fr[..j], []);
    } else {
      assert a.gap.Some? ==> fr[j + 1..][|fr| - j - 2] == Last(fr);
      assert HexGroup(Last(fr));
      EndsInColon(s);
    }
  }

  lemma FieldEnd(s: string, b: seq<Byte>, fr: seq<string>, last: string, a: Scan, j: nat)
    requires !BadStart(s) && Split(Body(s), ':') == fr + [last] && LastField(last)
    requires Shape(fr, a, j) && |a.bytes| + |FieldBytes(last)| <= 16
    requires var c := a.(bytes := a.bytes + FieldBytes(last)); ScanOk(c) && FillGap(c) == Some(b)
    ensures Loose(s, b)
  {
    hide Split;
    hide LooseGap;
    hide FieldBytes;
    hide AllBytes;
    hide HexGroup;
    hide IsQuad;
    hide BadStart;
    hide Body;
    hide LastField;
    hide LooseFields;
    if a.gap.None? {
      hide HexGroups;
      PlainAccepted(s, fr, last);
      WholeAddress(a, last, b);
    } else {
      hide FillGap;
      hide HexGroups;
      var f, g := fr[..j], fr[j + 1..] + [last];
      assert fr + [last] == f + [""] + g;
      TailFields(fr[j + 1..], last);
      assert a.bytes + FieldBytes(last) == AllBytes(f) + AllBytes(g);
      GapAccepted(s, b, f, g);
    }
  }

  lemma WholeAddress(a: Scan, last: string, b: seq<Byte>)
    requires a.gap.None? && |a.bytes| + |FieldBytes(last)| <= 16
    requires FillGap(a.(bytes := a.bytes + FieldBytes(last))) == Some(b)
    ensures b == a.bytes + FieldBytes(last) && |b| == 16
  {
  }

  lemma TailFields(g: seq<string>, last: string)
    requires HexGroups(g) && LastField(last)
    ensures LooseFields(g + [last]) && AllBytes(g + [last]) == AllBytes(g) + FieldBytes(last)
  {
    assert Front(g + [last]) == g;
    AllBytesConcat(g, [last]);
    OneField(last);
  }

  /** Accepted texts: a colon too many at the end, or fields with or without one "::". */
  lemma AcceptedIsLoose(s: string, b: seq<Byte>)
    ensures Parse6(s) == Some(b) ==> ColonLast(s) || Loose(s, b)
  {
    hide *;
    ParseParts(s, b);
    if Parse6(s) == Some(b) {
      var gs := Split(Body(s), ':');
      var fr, last := Front(gs), Last(gs);
      var a := ScanGroups(fr).value;
      var j := ScanShape(fr);
      if last == "" {
        NothingLast(a);
        EmptyEnd(s, b, fr, a, j);
      } else {
        AddLastCases(a, last);
        FieldEnd(s, b, fr, last, a, j);
      }
    }
  }

  /** The RFC's fields are those of at most four digits. */
  lemma LooseIsMixed(fs: seq<string>)
    requires LooseFields(fs)
    ensures MixedFields(fs) <==> forall i :: 0 <= i < |fs| && '.' !in fs[i] ==> |fs[i]| <= 4
  {
    forall i | 0 <= i < |fs| ensures HexField(fs[i]) <==> HexGroup(fs[i]) && |fs[i]| <= 4 {
      HexFieldIs(fs[i]);
    }
    forall i | 0 <= i < |fs| ensures HexGroup(fs[i]) ==> '.' !in fs[i] {
      if HexGroup(fs[i]) {
        HexHasNo(fs[i]);
      }
    }
    if fs != [] {
      if IsQuad(Last(fs)) {
        QuadHas(Last(fs));
      }
      assert forall i :: 0 <= i < |fs| - 1 ==> Front(fs)[i] == fs[i];
      assert Last(fs) == fs[|fs| - 1];
    }
  }

  /** The pieces of a text with "::", and how many groups it writes out. */
  lemma GapPieces(f: seq<string>, g: seq<string>)
    requires HexGroups(f) && LooseFields(g)
    ensures var p := Split(Join(f, ':') + "::" + Join(g, ':'), ':');
            && p == (if f == [] then [""] else f) + [""] + (if g == [] then [""] else g)
            && 2 * Groups(p) == |AllBytes(f)| + |AllBytes(g)|
  {
    hide *;
    HexGroupsNotEmpty(f);
    GapTextOf(f, Join(g, ':'));
    EndPieces(g);
    BytesPerGroup(f);
    LooseBytesPerGroup(g);
    var x, y := if f == [] then [""] else f, if g == [] then [""] else g;
    GroupsConcat(x + [""], y);
    GroupsConcat(x, [""]);
    NoGroup();
  }

  lemma NoGroup()
    ensures Groups([""]) == Groups([]) == 0
  {
    assert Front([""]) == [];
  }

  lemma NoGapInFields(s: string)
    requires LooseFields(Fields(s))
    ensures !HasGap(s) && !ColonLast(s)
  {
    hide Split;
    hide LooseFields;
    hide ColonLast;
    LooseNotEmpty(Fields(s));
    ColonLastPieces(s);
    SplitEmpty(':');
    if HasGap(s) {
      GapPiece(s);
    }
  }

  lemma FilledBetween(x: seq<Byte>, y: seq<Byte>, b: seq<Byte>)
    requires |x| + |y| <= 14
    ensures FillGap(Scan(x + y, Some(|x|))) == Some(b) <==> b == x + Zeros(16 - |x| - |y|) + y
  {
    FillBetween(x, y);
  }

  /** No long field among the pieces is no long field among the fields. */
  lemma ShortFields(f: seq<string>, g: seq<string>)
    requires HexGroups(f) && LooseFields(g)
    ensures var s := Join(f, ':') + "::" + Join(g, ':');
            !LongField(s) <==> PlainFields(f) && MixedFields(g)
  {
    hide *;
    var p := Split(Join(f, ':') + "::" + Join(g, ':'), ':');
    GapPieces(f, g);
    var x, y := if f == [] then [""] else f, if g == [] then [""] else g;
    LongFieldIs(Join(f, ':') + "::" + Join(g, ':'));
    AllShortConcat(x + [""], y);
    AllShortConcat(x, [""]);
    NoneLong();
    LooseIsMixed(g);
    HexIsPlain(f);
    ShortIs(g);
  }

  predicate AllShort(p: seq<string>) { forall i :: 0 <= i < |p| && '.' !in p[i] ==> |p[i]| <= 4 }

  lemma LongFieldIs(s: string)
    ensures LongField(s) <==> !AllShort(Split(s, ':'))
  {
    hide Split;
  }

  lemma ShortIs(p: seq<string>)
    ensures AllShort(p) <==> forall i :: 0 <= i < |p| && '.' !in p[i] ==> |p[i]| <= 4
  {
  }

  lemma NoneLong()
    ensures AllShort([""]) && AllShort([])
  {
  }

  lemma AllShortConcat(x: seq<string>, y: seq<string>)
    ensures AllShort(x + y) <==> AllShort(x) && AllShort(y)
  {
    assert forall i :: 0 <= i < |x| ==> (x + y)[i] == x[i];
    assert forall i :: 0 <= i < |y| ==> (x + y)[|x| + i] == y[i];
  }

  lemma HexIsPlain(f: seq<string>)
    requires HexGroups(f)
    ensures PlainFields(f) <==> AllShort(f)
  {
    forall i | 0 <= i < |f| ensures '.' !in f[i] && (HexField(f[i]) <==> |f[i]| <= 4) {
      HexHasNo(f[i]);
      HexFieldIs(f[i]);
    }
  }

  lemma PlainText(s: string)
    requires LooseFields(Fields(s)) && s != ""
    ensures !LongField(s) <==> MixedFields(Fields(s))
  {
    hide Split;
    LooseIsMixed(Fields(s));
  }

  lemma NoSingleColon(f: seq<string>, g: seq<string>)
    requires HexGroups(f) && LooseFields(g)
    ensures !ColonLast(Join(f, ':') + "::" + Join(g, ':'))
  {
    hide Split;
    hide Join;
    hide LooseFields;
    hide ColonLast;
    hide HexGroups;
    GapPieces(f, g);
    ColonLastPieces(Join(f, ':') + "::" + Join(g, ':'));
    LooseNotEmpty(g);
  }

  /** Texts with "::" whose groups leave it something to stand for. */
  lemma GapWithRoom(f: seq<string>, g: seq<string>, b: seq<Byte>)
    requires HexGroups(f) && LooseFields(g) && |AllBytes(f)| + |AllBytes(g)| <= 14
    ensures var s, x, y := Join(f, ':') + "::" + Join(g, ':'), AllBytes(f), AllBytes(g);
            && (Parse6(s) == Some(b) <==> b == x + Zeros(16 - |x| - |y|) + y)
            && !ColonLast(s) && !GapInFull(s)
  {
    hide *;
    GapParse(f, g);
    FilledBetween(AllBytes(f), AllBytes(g), b);
    NoSingleColon(f, g);
    GapPieces(f, g);
    FewGroups(Join(f, ':') + "::" + Join(g, ':'));
  }

  lemma FewGroups(s: string)
    ensures GapInFull(s) <==> HasGap(s) && Groups(Split(s, ':')) >= 8
  {
  }

  /** Every text of the RFC is accepted and means what the RFC says. */
  lemma RfcIsAccepted(s: string, b: seq<Byte>)
    requires Rfc4291(s, b)
    ensures Parse6(s) == Some(b) && !LongField(s) && !ColonLast(s) && !GapInFull(s)
  {
    hide *;
    RfcCases(s, b);
    if MixedFields(Fields(s)) && b == AllBytes(Fields(s)) && |b| == 16 {
      PlainIsLoose(Fields(s));
      JoinFields(s);
      PlainParse(Fields(s));
      NoGapInFields(s);
      NoFields(s);
      PlainText(s);
      FewGroups(s);
    } else {
      var front, back :| s == front + "::" + back && Compressed(front, back, b);
      var f, g := Fields(front), Fields(back);
      CompressedParts(front, back, b);
      PlainIsLoose(f);
      PlainIsLoose(g);
      JoinFields(front);
      JoinFields(back);
      GapWithRoom(f, g, b);
      ShortFields(f, g);
    }
  }

  lemma RfcCases(s: string, b: seq<Byte>)
    ensures Rfc4291(s, b) <==>
              || (MixedFields(Fields(s)) && b == AllBytes(Fields(s)) && |b| == 16)
              || exists front, back :: s == front + "::" + back && Compressed(front, back, b)
  {
    hide Fields;
    hide MixedFields;
    hide AllBytes;
    hide Compressed;
  }

  lemma CompressedParts(front: string, back: string, b: seq<Byte>)
    ensures var x, y := AllBytes(Fields(front)), AllBytes(Fields(back));
            Compressed(front, back, b) <==>
              && PlainFields(Fields(front)) && MixedFields(Fields(back))
              && |x| + |y| <= 14 && b == x + Zeros(16 - |x| - |y|) + y
  {
    hide Fields;
    hide PlainFields;
    hide MixedFields;
    hide AllBytes;
  }

  lemma NoFields(s: string)
    requires |AllBytes(Fields(s))| == 16
    ensures s != ""
  {
    assert Fields("") == [];
  }

  /** The exact difference between inet_pton6 and the RFC. */
  lemma ExactlyTheRfc(s: string, b: seq<Byte>)
    ensures Rfc4291(s, b) <==> Parse6(s) == Some(b) && !LongField(s) && !ColonLast(s) && !GapInFull(s)
  {
    hide *;
    if Rfc4291(s, b) {
      RfcIsAccepted(s, b);
    } else if Parse6(s) == Some(b) && !LongField(s) && !ColonLast(s) && !GapInFull(s) {
      AcceptedIsLoose(s, b);
      NarrowIsRfc(s, b);
    }
  }

  lemma NarrowIsRfc(s: string, b: seq<Byte>)
    requires Loose(s, b) && Parse6(s) == Some(b) && !LongField(s) && !GapInFull(s)
    ensures Rfc4291(s, b)
  {
    hide *;
    LooseCases(s, b);
    RfcCases(s, b);
    if LooseFields(Fields(s)) && b == AllBytes(Fields(s)) && |b| == 16 {
      NoFields(s);
      PlainText(s);
    } else {
      var f, g :| LooseGap(s, b, f, g);
      LooseGapParts(s, b, f, g);
      var front, back := Join(f, ':'), Join(g, ':');
      ShortFields(f, g);
      GapPieces(f, g);
      GapShows(front, back);
      FewGroups(s);
      PlainIsLoose(f);
      HexIsLoose(f);
      FieldsOfJoin(f);
      FieldsOfJoin(g);
      GapWithRoom(f, g, b);
      CompressedParts(front, back, b);
    }
  }

  lemma HexIsLoose(f: seq<string>)
    requires HexGroups(f)
    ensures LooseFields(f)
  {
  }

  lemma LooseCases(s: string, b: seq<Byte>)
    ensures Loose(s, b) <==>
              || (LooseFields(Fields(s)) && b == AllBytes(Fields(s)) && |b| == 16)
              || exists f, g :: LooseGap(s, b, f, g)
  {
    hide Fields;
    hide LooseFields;
    hide AllBytes;
    hide LooseGap;
  }

  lemma LooseGapParts(s: string, b: seq<Byte>, f: seq<string>, g: seq<string>)
    requires LooseGap(s, b, f, g)
    ensures s == Join(f, ':') + "::" + Join(g, ':') && HexGroups(f) && LooseFields(g)
    ensures |AllBytes(f)| + |AllBytes(g)| <= 16
  {
    hide Join;
    hide LooseFields;
    hide AllBytes;
    hide HexGroups;
  }

  // ----- what the three departures do -----

  lemma LastOrFollowed(a: Scan, g: string)
    requires HexGroup(g)
    ensures AddGroup(a, g) == AddLast(a, g)
  {
    assert !IsQuad(g) by {
      if IsQuad(g) {
        SplitNoSep(g, '.');
      }
    }
  }

  /** A single colon after a last hex group changes nothing, whatever the text before it. */
  lemma TrailingColonIgnored(s: string)
    requires s != "" && !BadStart(s) && HexGroup(Last(Split(Body(s), ':')))
    ensures Parse6(s + ":") == Parse6(s)
  {
    hide Split;
    hide FillGap;
    var gs := Split(Body(s), ':');
    assert Body(s + ":") == Body(s) + [':'];
    SplitSnoc(Body(s), ':', ':');
    AppendLast(gs, [""]);
    assert gs + Front([""]) == gs;
    assert !BadStart(s + ":");
    if ScanGroups(Front(gs)).Some? {
      LastOrFollowed(ScanGroups(Front(gs)).value, Last(gs));
    }
  }

  /** Leading zeros beyond four digits change nothing either. */
  lemma LeadingZeroIgnored(g: string)
    requires HexGroup(g)
    ensures HexGroup("0" + g) && HexVal("0" + g) == HexVal(g) && FieldBytes("0" + g) == FieldBytes(g)
  {
    HexValZero(g);
  }

  lemma {:induction false} HexValZero(g: string)
    requires AllHex(g)
    ensures AllHex("0" + g) && HexVal("0" + g) == HexVal(g)
  {
    if g == "" {
      assert Front("0") == "";
    } else {
      HexValZero(Front(g));
      assert "0" + g == ("0" + Front(g)) + [Last(g)];
      assert Front("0" + g) == "0" + Front(g);
    }
  }

  /** The bytes a whole text has collected and where its "::" stands. */
  function ScanText(s: string): Option<Scan> {
    if BadStart(s) then None
    else
      var gs := Split(Body(s), ':');
      match ScanGroups(Front(gs))
      case None => None
      case Some(a) => AddLast(a, Last(gs))
  }

  /** "::" in a full address is not silently ignored, as the comment above inet_pton6 has it: the shift clears
      every byte behind it, in any spelling. It is harmless exactly when those bytes are zero anyway. */
  lemma GapInFullAddress(s: string, a: Scan, k: nat)
    ensures ScanText(s) == Some(a) && |a.bytes| == 16 && a.gap == Some(k) ==>
              && k <= 16 && Parse6(s) == Some(a.bytes[..k] + Zeros(16 - k))
              && (Parse6(s) == Some(a.bytes) <==> forall i :: k <= i < 16 ==> a.bytes[i] == 0)
  {
    hide *;
    ScanParse(s);
    if ScanText(s) == Some(a) && |a.bytes| == 16 && a.gap == Some(k) {
      ClearedBehind(a, k);
      var r := a.bytes[..k] + Zeros(16 - k);
      if forall i :: k <= i < 16 ==> a.bytes[i] == 0 {
        assert r == a.bytes;
      } else {
        var i :| k <= i < 16 && a.bytes[i] != 0;
        assert r[i] == 0;
      }
    }
  }

  /** A text is parsed by scanning it and filling its gap. */
  lemma ScanParse(s: string)
    ensures match ScanText(s)
            case None => Parse6(s) == None
            case Some(a) => ScanOk(a) && Parse6(s) == FillGap(a)
  {
    hide Split;
    hide FillGap;
  }

  lemma ClearedBehind(a: Scan, k: nat)
    requires ScanOk(a) && |a.bytes| == 16 && a.gap == Some(k)
    ensures k <= 16 && FillGap(a) == Some(a.bytes[..k] + Zeros(16 - k))
  {
  }

  lemma GapAmongEight(f: seq<string>, g: seq<string>)
    requires HexGroups(f) && LooseFields(g) && |AllBytes(f)| + |AllBytes(g)| == 16
    ensures var r, x, y := Parse6(Join(f, ':') + "::" + Join(g, ':')), AllBytes(f), AllBytes(g);
            r == Some(x + Zeros(|y|)) && (r == Some(x + y) <==> y == Zeros(|y|))
  {
    hide *;
    var x, y := AllBytes(f), AllBytes(g);
    GapParse(f, g);
    FillFull(x, y);
    assert (x + Zeros(|y|))[|x|..] == Zeros(|y|) && (x + y)[|x|..] == y;
  }

  lemma FillFull(x: seq<Byte>, y: seq<Byte>)
    requires |x| + |y| == 16
    ensures FillGap(Scan(x + y, Some(|x|))) == Some(x + Zeros(|y|))
  {
    assert (x + y)[..|x|] == x;
  }

  lemma {:induction false} BytesOfTexts(w: seq<Word>)
    ensures HexGroups(HexTexts(w)) && AllBytes(HexTexts(w)) == BytesOf(w)
  {
    hide HexText;
    if w != [] {
      BytesOfTexts(Front(w));
      WordText(Last(w));
      assert HexTexts(w) == HexTexts(Front(w)) + [HexText(Last(w))];
      assert Front(HexTexts(w)) == HexTexts(Front(w));
    }
  }

  /** So it is for eight words in the printed spelling, */
  lemma GapAmongWords(head: seq<Word>, tail: seq<Word>)
    requires |head| + |tail| == 8
    ensures var r := Parse6(Join(HexTexts(head), ':') + "::" + Join(HexTexts(tail), ':'));
            && r == Some(BytesOf(head) + Zeros(2 * |tail|))
            && (r == Some(BytesOf(head + tail)) <==> forall i :: 0 <= i < |tail| ==> tail[i] == 0)
  {
    hide HexText;
    hide Join;
    hide Parse6;
    BytesOfTexts(head);
    BytesOfTexts(tail);
    GapAmongEight(HexTexts(head), HexTexts(tail));
    BytesOfConcat(head, tail);
    if BytesOf(tail) == Zeros(2 * |tail|) {
      forall i | 0 <= i < |tail| ensures tail[i] == 0 {
        BytesOfAt(tail, i);
      }
    }
    if forall i :: 0 <= i < |tail| ==> tail[i] == 0 {
      BytesOfZeros(tail);
    }
  }

  /** and for six words and a dotted quad, which is cleared with the words between. */
  lemma GapBeforeQuad(head: seq<Word>, mid: seq<Word>, q: seq<Byte>)
    requires |head| + |mid| == 6 && |q| == 4
    ensures var r := Parse6(Join(HexTexts(head), ':') + "::" + Join(HexTexts(mid) + [QuadText(q)], ':'));
            && r == Some(BytesOf(head) + Zeros(16 - 2 * |head|))
            && (r == Some(BytesOf(head) + (BytesOf(mid) + q)) <==> BytesOf(mid) + q == Zeros(16 - 2 * |head|))
  {
    hide HexText;
    hide QuadText;
    hide Join;
    hide Parse6;
    hide IsQuad;
    hide QuadBytes;
    BytesOfTexts(head);
    BytesOfTexts(mid);
    PrintParse4(q);
    QuadHas(QuadText(q));
    TailFields(HexTexts(mid), QuadText(q));
    GapAmongEight(HexTexts(head), HexTexts(mid) + [QuadText(q)]);
  }
}
