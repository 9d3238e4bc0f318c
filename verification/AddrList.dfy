/** The values in an addrinfo list, and what filling in ports and socket types makes of them. */
module AddrList {
  import opened Text
  import opened Ipv4Text

  datatype Family = AF_INET | AF_INET6 | AF_LOCAL

  const SOCK_STREAM := 1
  const SOCK_DGRAM := 2

  /** One addrinfo with the socket address it points to; `clone` is the AI_CLONE flag. */
  datatype Entry = Entry(clone: bool, family: Family, socktype: int, protocol: int, address: seq<Byte>, port: Word)

  /** One call of ga_port. */
  datatype Call = Call(port: Word, socktype: int)

  predicate HasPort(e: Entry) { e.family.AF_INET? || e.family.AF_INET6? }

  function Ported(e: Entry, c: Call): Entry {
    e.(socktype := c.socktype, port := if HasPort(e) then c.port else e.port)
  }

  /** What ga_port leaves in place of one entry. */
  function Visited(e: Entry, c: Call): seq<Entry> {
    if e.clone && e.socktype != 0 then [e, Ported(e.(clone := false), c)]
    else if e.clone || e.socktype == c.socktype then [Ported(e, c)]
    else [e]
  }

  /** Whether that entry adds to ga_port's count. */
  function Found(e: Entry, c: Call): nat {
    if HasPort(e) && (e.clone || e.socktype == c.socktype) then 1 else 0
  }

  function PortList(es: seq<Entry>, c: Call): seq<Entry> {
    if es == [] then [] else PortList(Front(es), c) + Visited(Last(es), c)
  }

  function PortCount(es: seq<Entry>, c: Call): nat {
    if es == [] then 0 else PortCount(Front(es), c) + Found(Last(es), c)
  }

  function AfterCalls(es: seq<Entry>, calls: seq<Call>): seq<Entry> {
    if calls == [] then es else PortList(AfterCalls(es, Front(calls)), Last(calls))
  }

  function TotalFound(es: seq<Entry>, calls: seq<Call>): nat {
    if calls == [] then 0
    else TotalFound(es, Front(calls)) + PortCount(AfterCalls(es, Front(calls)), Last(calls))
  }

  lemma {:induction false} PortListConcat(a: seq<Entry>, b: seq<Entry>, c: Call)
    ensures PortList(a + b, c) == PortList(a, c) + PortList(b, c)
    ensures PortCount(a + b, c) == PortCount(a, c) + PortCount(b, c)
  {
    if b == [] {
      assert a + b == a;
    } else {
      PortListConcat(a, Front(b), c);
      AppendLast(a, b);
    }
  }

  // ----- one call on any list -----

  predicate Internet(e: Entry) { e.family in {AF_INET, AF_INET6} }

  /** An entry that a call copies. */
  predicate Copied(e: Entry) { e.clone && e.socktype != 0 }

  /** An entry that a call gives its type and, if it has one, its port: it waits for any type, or has that very type. */
  predicate Matches(e: Entry, c: Call) { if e.clone then e.socktype == 0 else e.socktype == c.socktype }

  function Given(e: Entry, c: Call): Entry {
    if Internet(e) then e.(socktype := c.socktype, port := c.port) else e.(socktype := c.socktype)
  }

  function CopiedIn(es: seq<Entry>): nat {
    if es == [] then 0 else CopiedIn(Front(es)) + if Copied(Last(es)) then 1 else 0
  }

  function FoundIn(es: seq<Entry>, c: Call): nat {
    if es == [] then 0
    else FoundIn(Front(es), c) + if Internet(Last(es)) && (Copied(Last(es)) || Matches(Last(es), c)) then 1 else 0
  }

  /** Entry i moves up by the copies made before it; it stays, or takes type and port if it matches, and its copy
      follows it if it is copied. */
  ghost predicate CalledAt(es: seq<Entry>, c: Call, r: seq<Entry>, i: nat)
    requires i < |es|
  {
    var at := i + CopiedIn(es[..i]);
    && at < |r| && r[at] == (if Matches(es[i], c) then Given(es[i], c) else es[i])
    && (Copied(es[i]) ==> at + 1 < |r| && r[at + 1] == Given(es[i].(clone := false), c))
  }

  lemma EarlierStands(es: seq<Entry>, c: Call, q: seq<Entry>, r: seq<Entry>, i: nat)
    requires i + 1 < |es| && q <= r && CalledAt(Front(es), c, q, i)
    ensures CalledAt(es, c, r, i)
  {
    assert es[..i] == Front(es)[..i];
  }

  lemma LastCalled(es: seq<Entry>, c: Call, q: seq<Entry>)
    requires es != [] && |q| == |es| - 1 + CopiedIn(Front(es))
    ensures CalledAt(es, c, q + Visited(Last(es), c), |es| - 1)
    ensures |Visited(Last(es), c)| == 1 + if Copied(Last(es)) then 1 else 0
  {
    assert es[..|es| - 1] == Front(es);
  }

  /** What one call of ga_port makes of any list at all, and what it counts. */
  lemma {:induction false} CallExactly(es: seq<Entry>, c: Call)
    ensures var r := PortList(es, c);
            && |r| == |es| + CopiedIn(es) && PortCount(es, c) == FoundIn(es, c)
            && forall i :: 0 <= i < |es| ==> CalledAt(es, c, r, i)
  {
    if es != [] {
      CallExactly(Front(es), c);
      var r, q := PortList(es, c), PortList(Front(es), c);
      LastCalled(es, c, q);
      hide CalledAt;
      forall i | 0 <= i < |es| ensures CalledAt(es, c, r, i) {
        if i < |es| - 1 {
          EarlierStands(es, c, q, r, i);
        }
      }
    }
  }

  /** An entry that has the called type already, and a port. */
  predicate Takes(e: Entry, c: Call) { e.socktype == c.socktype && e.family in {AF_INET, AF_INET6} }

  /** A list whose entries all have their types keeps its length and order: exactly the Internet entries of the
      called type get the port and are counted. */
  lemma TypedList(es: seq<Entry>, c: Call)
    requires forall i :: 0 <= i < |es| ==> !es[i].clone
    ensures var r := PortList(es, c);
            && |r| == |es|
            && (forall i :: 0 <= i < |es| ==> r[i] == if Takes(es[i], c) then es[i].(port := c.port) else es[i])
            && PortCount(es, c) == |set i | 0 <= i < |es| && Takes(es[i], c)|
  {
    CallExactly(es, c);
    forall i | 0 <= i < |es|
      ensures PortList(es, c)[i] == if Takes(es[i], c) then es[i].(port := c.port) else es[i]
    {
      NoneCopied(es[..i]);
      assert CalledAt(es, c, PortList(es, c), i);
    }
    NoneCopied(es);
    FoundAmong(es, c);
  }

  lemma {:induction false} NoneCopied(es: seq<Entry>)
    requires forall i :: 0 <= i < |es| ==> !es[i].clone
    ensures CopiedIn(es) == 0
  {
    if es != [] {
      NoneCopied(Front(es));
    }
  }

  lemma {:induction false} FoundAmong(es: seq<Entry>, c: Call)
    requires forall i :: 0 <= i < |es| ==> !es[i].clone
    ensures FoundIn(es, c) == |set i | 0 <= i < |es| && Takes(es[i], c)|
  {
    var all := set i | 0 <= i < |es| && Takes(es[i], c);
    if es != [] {
      FoundAmong(Front(es), c);
      LastFound(Last(es), c);
      hide Takes;
      var p, k := Front(es), |es| - 1;
      var some := set i | 0 <= i < |p| && Takes(p[i], c);
      assert forall i :: 0 <= i < k ==> p[i] == es[i];
      assert all == if k in all then some + {k} else some;
    }
  }

  lemma LastFound(e: Entry, c: Call)
    ensures !e.clone ==> (Internet(e) && (Copied(e) || Matches(e, c)) <==> Takes(e, c))
  {
  }

  // ----- the cross product -----

  /** An entry as the host search leaves it when the caller named no socket type. */
  predicate Untyped(e: Entry) { e.clone && e.socktype == 0 && e.family in {AF_INET, AF_INET6} }

  predicate DistinctTypes(calls: seq<Call>) {
    && (forall i :: 0 <= i < |calls| ==> calls[i].socktype != 0)
    && (forall i, j :: 0 <= i < j < |calls| ==> calls[i].socktype != calls[j].socktype)
  }

  function Copies(e: Entry, calls: seq<Call>): seq<Entry> {
    if calls == [] then [] else [Ported(e.(clone := false), Last(calls))] + Copies(e, Front(calls))
  }

  /** Everything one address has become: itself with the first type, then its copies, latest first. */
  function Group(e: Entry, calls: seq<Call>): seq<Entry> {
    if calls == [] then [e] else [Ported(e, calls[0])] + Copies(e, calls[1..])
  }

  function Groups(es: seq<Entry>, calls: seq<Call>): seq<Entry> {
    if es == [] then [] else Groups(Front(es), calls) + Group(Last(es), calls)
  }

  lemma {:induction false} CopiesUntouched(e: Entry, calls: seq<Call>, c: Call)
    requires forall i :: 0 <= i < |calls| ==> calls[i].socktype != c.socktype
    ensures PortList(Copies(e, calls), c) == Copies(e, calls)
    ensures PortCount(Copies(e, calls), c) == 0
  {
    if calls != [] {
      hide PortList;
      hide PortCount;
      CopiesUntouched(e, Front(calls), c);
      PortListConcat([Ported(e.(clone := false), Last(calls))], Copies(e, Front(calls)), c);
      SinglePort(Ported(e.(clone := false), Last(calls)), c);
    } else {
      assert Copies(e, calls) == [];
    }
  }

  lemma SinglePort(e: Entry, c: Call)
    ensures PortList([e], c) == Visited(e, c) && PortCount([e], c) == Found(e, c)
  {
    assert Front([e]) == [];
    assert PortList([e], c) == [] + Visited(e, c);
  }

  lemma DistinctParts(calls: seq<Call>, c: Call)
    requires DistinctTypes(calls + [c])
    ensures DistinctTypes(calls) && c.socktype != 0
    ensures forall i :: 0 <= i < |calls| ==> calls[i].socktype != c.socktype
  {
    var all := calls + [c];
    assert all[|calls|] == c;
    assert forall i :: 0 <= i < |calls| ==> calls[i] == all[i];
  }

  lemma GroupGrows(e: Entry, calls: seq<Call>, c: Call)
    requires Untyped(e) && DistinctTypes(calls + [c])
    ensures PortList(Group(e, calls), c) == Group(e, calls + [c])
    ensures PortCount(Group(e, calls), c) == 1
  {
    hide PortList;
    hide PortCount;
    DistinctParts(calls, c);
    if calls == [] {
      SinglePort(e, c);
    } else {
      var head, copies := Ported(e, calls[0]), Copies(e, calls[1..]);
      CopiesUntouched(e, calls[1..], c);
      PortListConcat([head], copies, c);
      SinglePort(head, c);
      assert (calls + [c])[1..] == calls[1..] + [c];
      assert Front(calls[1..] + [c]) == calls[1..];
      assert Ported(head.(clone := false), c) == Ported(e.(clone := false), c);
    }
  }

  lemma {:induction false} GroupsGrow(es: seq<Entry>, calls: seq<Call>, c: Call)
    requires forall i :: 0 <= i < |es| ==> Untyped(es[i])
    requires DistinctTypes(calls + [c])
    ensures PortList(Groups(es, calls), c) == Groups(es, calls + [c])
    ensures PortCount(Groups(es, calls), c) == |es|
  {
    if es != [] {
      GroupsGrow(Front(es), calls, c);
      PortListConcat(Groups(Front(es), calls), Group(Last(es), calls), c);
      GroupGrows(Last(es), calls, c);
    }
  }

  lemma GroupOfNone(e: Entry)
    ensures Group(e, []) == [e]
  {
  }

  lemma {:induction false} NoCalls(es: seq<Entry>)
    ensures Groups(es, []) == es
  {
    hide Group;
    if es != [] {
      NoCalls(Front(es));
      GroupOfNone(Last(es));
      assert es == Front(es) + [Last(es)];
    }
  }

  /** Any number of calls with distinct socket types turns each address into its own group. */
  lemma {:induction false} CallsMakeGroups(es: seq<Entry>, calls: seq<Call>)
    requires forall i :: 0 <= i < |es| ==> Untyped(es[i])
    requires DistinctTypes(calls)
    ensures AfterCalls(es, calls) == Groups(es, calls)
    ensures TotalFound(es, calls) == |es| * |calls|
  {
    hide PortList;
    hide PortCount;
    hide Groups;
    if calls == [] {
      NoCalls(es);
    } else {
      var before, c := Front(calls), Last(calls);
      assert calls == before + [c];
      DistinctParts(before, c);
      CallsMakeGroups(es, before);
      GroupsGrow(es, before, c);
      Distribute(|es|, |before|);
    }
  }

  lemma Distribute(n: nat, m: nat)
    ensures n * m + n == n * (m + 1)
  {
  }

  /** Each call finds every address once. */
  lemma EachCallFindsAll(es: seq<Entry>, calls: seq<Call>, c: Call)
    requires forall i :: 0 <= i < |es| ==> Untyped(es[i])
    requires DistinctTypes(calls + [c])
    ensures PortCount(AfterCalls(es, calls), c) == |es|
  {
    DistinctParts(calls, c);
    CallsMakeGroups(es, calls);
    GroupsGrow(es, calls, c);
  }

  /** Where the entry of call j stands in its address's group of m. */
  function Slot(j: nat, m: nat): nat
    requires j < m
  {
    if j == 0 then 0 else m - j
  }

  function EntryFor(e: Entry, calls: seq<Call>, j: nat): Entry
    requires j < |calls|
  {
    e.(clone := j == 0, socktype := calls[j].socktype, port := calls[j].port)
  }

  lemma {:induction false} CopiesAt(e: Entry, calls: seq<Call>, j: nat)
    requires j < |calls|
    ensures |Copies(e, calls)| == |calls|
    ensures Copies(e, calls)[|calls| - 1 - j] == Ported(e.(clone := false), calls[j])
  {
    if |calls| == 1 {
      assert Front(calls) == [];
    } else {
      CopiesAt(e, Front(calls), if j == |calls| - 1 then 0 else j);
    }
  }

  lemma GroupAt(e: Entry, calls: seq<Call>, j: nat)
    requires j < |calls| && Untyped(e)
    ensures |Group(e, calls)| == |calls|
    ensures Group(e, calls)[Slot(j, |calls|)] == EntryFor(e, calls, j)
  {
    if |calls| == 1 {
      assert calls[1..] == [];
    } else {
      CopiesAt(e, calls[1..], if j == 0 then 0 else j - 1);
    }
    assert e.(clone := true) == e;
  }

  lemma {:induction false} GroupsLength(es: seq<Entry>, calls: seq<Call>)
    requires calls != [] && forall k :: 0 <= k < |es| ==> Untyped(es[k])
    ensures |Groups(es, calls)| == |es| * |calls|
  {
    hide Group;
    if es != [] {
      GroupsLength(Front(es), calls);
      GroupAt(Last(es), calls, 0);
      NextRow(|es| - 1, |calls|);
    }
  }

  lemma NextRow(n: nat, m: nat)
    ensures n * m + m == (n + 1) * m
  {
  }

  lemma InRange(i: nat, n: nat, m: nat, s: nat)
    requires i < n && s < m
    ensures 0 <= i * m && i * m + s < n * m
  {
    assert (i + 1) * m <= n * m;
  }

  lemma {:induction false} GroupsAt(es: seq<Entry>, calls: seq<Call>, i: nat, j: nat)
    requires i < |es| && j < |calls|
    requires forall k :: 0 <= k < |es| ==> Untyped(es[k])
    ensures 0 <= i * |calls| && i * |calls| + Slot(j, |calls|) < |Groups(es, calls)|
    ensures Groups(es, calls)[i * |calls| + Slot(j, |calls|)] == EntryFor(es[i], calls, j)
  {
    hide Group;
    var m, s := |calls|, Slot(j, |calls|);
    GroupsLength(es, calls);
    GroupsLength(Front(es), calls);
    InRange(i, |es|, m, s);
    if i == |es| - 1 {
      GroupAt(Last(es), calls, j);
    } else {
      InRange(i, |es| - 1, m, s);
      GroupsAt(Front(es), calls, i, j);
    }
  }

  /** The entry of address i and call j is in its place in the result. */
  ghost predicate Placed(r: seq<Entry>, es: seq<Entry>, calls: seq<Call>, i: nat, j: nat)
    requires i < |es| && j < |calls|
  {
    var at := i * |calls| + Slot(j, |calls|);
    0 <= at < |r| && r[at] == EntryFor(es[i], calls, j)
  }

  /** The cross product: k addresses and m socket types give k * m entries, each address with each
      type and that type's port exactly once, addresses in their original order. */
  lemma CrossProduct(es: seq<Entry>, calls: seq<Call>)
    requires forall i :: 0 <= i < |es| ==> Untyped(es[i])
    requires DistinctTypes(calls) && calls != []
    ensures var r, m := AfterCalls(es, calls), |calls|;
            && |r| == |es| * m
            && (forall i, j :: 0 <= i < |es| && 0 <= j < m ==> Placed(r, es, calls, i, j))
            && (forall j, k :: 0 <= j < k < m ==> Slot(j, m) != Slot(k, m))
  {
    hide Groups;
    hide AfterCalls;
    hide TotalFound;
    CallsMakeGroups(es, calls);
    GroupsLength(es, calls);
    var r, m := AfterCalls(es, calls), |calls|;
    forall i, j | 0 <= i < |es| && 0 <= j < m
      ensures Placed(r, es, calls, i, j)
    {
      GroupsAt(es, calls, i, j);
    }
  }

  // ----- ga_serv -----

  const EAI_NONAME := 8
  const EAI_SERVICE := 9

  /** atoi of the leading digits. */
  function Atoi(s: string): nat {
    if s == "" || !IsDigit(s[0]) then 0 else AtoiFrom(s, 0)
  }

  function AtoiFrom(s: string, acc: nat): nat
    decreases |s|
  {
    if s == "" || !IsDigit(s[0]) then acc else AtoiFrom(s[1..], acc * 10 + (s[0] as int - '0' as int))
  }

  /** The ga_port calls a service string leads to; tcp and udp are what getservbyname answers. */
  function ServCalls(socktype: int, serv: string, tcp: Option<Word>, udp: Option<Word>): seq<Call> {
    if serv != "" && IsDigit(serv[0]) then
      var port := Atoi(serv) % 0x1_0000;
      if socktype != 0 then [Call(port, socktype)] else [Call(port, SOCK_STREAM), Call(port, SOCK_DGRAM)]
    else
      (if (socktype == 0 || socktype == SOCK_STREAM) && tcp.Some? then [Call(tcp.value, SOCK_STREAM)] else [])
      + (if (socktype == 0 || socktype == SOCK_DGRAM) && udp.Some? then [Call(udp.value, SOCK_DGRAM)] else [])
  }

  function ServResult(found: nat, socktype: int): int {
    if found > 0 then 0 else if socktype == 0 then EAI_NONAME else EAI_SERVICE
  }

  lemma {:induction false} DigitsRead(p: string, rest: string)
    requires AllDigits(p)
    ensures AtoiFrom(p + rest, 0) == AtoiFrom(rest, DecVal(p))
  {
    if p == "" {
      assert p + rest == rest;
    } else {
      var c := [Last(p)];
      DigitsRead(Front(p), c + rest);
      assert p + rest == Front(p) + (c + rest);
      assert (c + rest)[1..] == rest;
    }
  }

  /** Reading back a printed number, whatever follows its digits. */
  lemma AtoiReads(n: nat, rest: string)
    requires rest == "" || !IsDigit(rest[0])
    ensures Atoi(DecText(n) + rest) == n
  {
    hide DecText;
    DigitsRead(DecText(n), rest);
    DecValText(n);
    assert (DecText(n) + rest)[0] == DecText(n)[0];
  }

  /** The calls for a port number: one for the type asked for, or else stream and then datagram. */
  lemma NumericService(socktype: int, n: nat, rest: string, tcp: Option<Word>, udp: Option<Word>)
    requires rest == "" || !IsDigit(rest[0])
    ensures var port: Word := n % 0x1_0000;
            ServCalls(socktype, DecText(n) + rest, tcp, udp) ==
            if socktype != 0 then [Call(port, socktype)] else [Call(port, SOCK_STREAM), Call(port, SOCK_DGRAM)]
  {
    AtoiReads(n, rest);
    assert (DecText(n) + rest)[0] == DecText(n)[0];
  }

  /** The calls for a service name: stream if tcp knows it and then datagram if udp does, as far as the type asked for
      allows. */
  lemma NamedService(socktype: int, serv: string, tcp: Option<Word>, udp: Option<Word>)
    requires serv == "" || !IsDigit(serv[0])
    ensures var calls := ServCalls(socktype, serv, tcp, udp);
            && DistinctTypes(calls)
            && (forall p: Word, t: int :: Call(p, t) in calls <==>
                  socktype in {0, t} && ((t == SOCK_STREAM && tcp == Some(p)) || (t == SOCK_DGRAM && udp == Some(p))))
            && (|calls| == 2 ==> calls[0].socktype == SOCK_STREAM)
  {
  }

  lemma TwoTypes(es: seq<Entry>, c: Call, d: Call, i: nat)
    requires forall k :: 0 <= k < |es| ==> Untyped(es[k])
    requires DistinctTypes([c, d]) && i < |es|
    ensures var r := AfterCalls(es, [c, d]);
            && |r| == 2 * |es| && r[2 * i] == Ported(es[i], c) && r[2 * i + 1] == Ported(es[i].(clone := false), d)
  {
    hide AfterCalls;
    hide Groups;
    CallsMakeGroups(es, [c, d]);
    GroupsLength(es, [c, d]);
    GroupsAt(es, [c, d], i, 0);
    GroupsAt(es, [c, d], i, 1);
    assert es[i].(clone := true) == es[i];
  }

  /** A port number with no socket type: the 2k entries alternate STREAM, DGRAM per address. */
  lemma NumericServiceAlternates(es: seq<Entry>, serv: string, tcp: Option<Word>, udp: Option<Word>)
    requires forall i :: 0 <= i < |es| ==> Untyped(es[i])
    requires serv != "" && IsDigit(serv[0])
    ensures var calls, port := ServCalls(0, serv, tcp, udp), Atoi(serv) % 0x1_0000;
            var r := AfterCalls(es, calls);
            && |r| == 2 * |es| == TotalFound(es, calls)
            && forall i :: 0 <= i < |es| ==>
                 && r[2 * i] == es[i].(socktype := SOCK_STREAM, port := port)
                 && r[2 * i + 1] == es[i].(clone := false, socktype := SOCK_DGRAM, port := port)
  {
    hide AfterCalls;
    hide TotalFound;
    hide Atoi;
    hide Groups;
    var port := Atoi(serv) % 0x1_0000;
    var c, d := Call(port, SOCK_STREAM), Call(port, SOCK_DGRAM);
    CallsMakeGroups(es, [c, d]);
    GroupsLength(es, [c, d]);
    forall i | 0 <= i < |es|
      ensures AfterCalls(es, [c, d])[2 * i] == Ported(es[i], c)
      ensures AfterCalls(es, [c, d])[2 * i + 1] == Ported(es[i].(clone := false), d)
    {
      TwoTypes(es, c, d, i);
    }
  }
}
