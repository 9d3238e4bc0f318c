/** The linked addrinfo list: ga_aistruct, ga_clone, ga_port and ga_serv, in place. */
module Gai {
  import opened Text
  import opened AddrList

  class SockAddr {
    var address: seq<Byte>
    var port: Word

    constructor (address: seq<Byte>, port: Word)
      ensures this.address == address && this.port == port
    {
      this.address, this.port := address, port;
    }
  }

  class AddrInfo {
    var clone: bool
    var family: Family
    var socktype: int
    var protocol: int
    var addr: SockAddr
    var next: AddrInfo?

    constructor (clone: bool, family: Family, socktype: int, protocol: int, addr: SockAddr, next: AddrInfo?)
      ensures this.clone == clone && this.family == family && this.socktype == socktype
      ensures this.protocol == protocol && this.addr == addr && this.next == next
    {
      this.clone, this.family, this.socktype := clone, family, socktype;
      this.protocol, this.addr, this.next := protocol, addr, next;
    }

    ghost function Value(): Entry
      reads this, addr
    {
      Entry(clone, family, socktype, protocol, addr.address, addr.port)
    }
  }

  /** The nodes hang together from head to null. */
  ghost predicate Linked(head: AddrInfo?, nodes: seq<AddrInfo>)
    reads nodes
  {
    && head == (if nodes == [] then null else nodes[0])
    && forall i :: 0 <= i < |nodes| ==> nodes[i].next == if i + 1 < |nodes| then nodes[i + 1] else null
  }

  /** No node occurs twice and no two nodes share a socket address. */
  ghost predicate Separate(nodes: seq<AddrInfo>)
    reads nodes
  {
    forall i, j :: 0 <= i < j < |nodes| ==> nodes[i] != nodes[j] && nodes[i].addr != nodes[j].addr
  }

  ghost function Addrs(nodes: seq<AddrInfo>): set<SockAddr>
    reads nodes
  {
    set i | 0 <= i < |nodes| :: nodes[i].addr
  }

  ghost function Values(nodes: seq<AddrInfo>): (r: seq<Entry>)
    reads nodes, Addrs(nodes)
    ensures |r| == |nodes| && forall i :: 0 <= i < |nodes| ==> r[i] == nodes[i].Value()
  {
    seq(|nodes|, i requires 0 <= i < |nodes| reads nodes, Addrs(nodes) => nodes[i].Value())
  }

  /** The next fields and the socket addresses: all that links and separates the nodes. */
  ghost function Nexts(nodes: seq<AddrInfo>): (nx: seq<AddrInfo?>)
    reads nodes
    ensures |nx| == |nodes| && forall i :: 0 <= i < |nodes| ==> nx[i] == nodes[i].next
  {
    seq(|nodes|, i requires 0 <= i < |nodes| reads nodes => nodes[i].next)
  }

  ghost function Owned(nodes: seq<AddrInfo>): (owned: seq<SockAddr>)
    reads nodes
    ensures |owned| == |nodes| && forall i :: 0 <= i < |nodes| ==> owned[i] == nodes[i].addr
  {
    seq(|nodes|, i requires 0 <= i < |nodes| reads nodes => nodes[i].addr)
  }

  ghost predicate Layout(head: AddrInfo?, nodes: seq<AddrInfo>, nx: seq<AddrInfo?>, owned: seq<SockAddr>) {
    && |nx| == |owned| == |nodes| && head == (if nodes == [] then null else nodes[0])
    && (forall i :: 0 <= i < |nodes| ==> nx[i] == if i + 1 < |nodes| then nodes[i + 1] else null)
    && forall i, j :: 0 <= i < j < |nodes| ==> nodes[i] != nodes[j] && owned[i] != owned[j]
  }

  lemma LayoutIs(head: AddrInfo?, nodes: seq<AddrInfo>)
    ensures Linked(head, nodes) && Separate(nodes) <==> Layout(head, nodes, Nexts(nodes), Owned(nodes))
  {
  }

  /** ga_clone: a copy with its own socket address, linked in right behind the original. */
  method GaClone(ai: AddrInfo) returns (copy: AddrInfo)
    modifies ai`next
    ensures fresh(copy) && fresh(copy.addr)
    ensures copy.next == old(ai.next) && ai.next == copy
    ensures copy.Value() == old(ai.Value()).(clone := false)
  {
    var addr := new SockAddr(ai.addr.address, ai.addr.port);
    copy := new AddrInfo(false, ai.family, ai.socktype, ai.protocol, addr, ai.next);
    ai.next := copy;
  }

  ghost function NodeSet(nodes: seq<AddrInfo>): set<AddrInfo> { set i | 0 <= i < |nodes| :: nodes[i] }

  /** The next fields as they were, nx, with one node spliced in behind position `at`. */
  lemma SplicedLinked(head: AddrInfo, nodes: seq<AddrInfo>, nx: seq<AddrInfo?>, now: seq<AddrInfo>,
                      at: nat, copy: AddrInfo)
    requires at < |nodes| == |nx| && now == nodes[..at + 1] + [copy] + nodes[at + 1..] && head == nodes[0]
    requires forall k :: 0 <= k < |nodes| ==> nx[k] == if k + 1 < |nodes| then nodes[k + 1] else null
    requires nodes[at].next == copy && copy.next == nx[at]
    requires forall k :: 0 <= k < |nodes| && k != at ==> nodes[k].next == nx[k]
    ensures Linked(head, now)
  {
    forall i | 0 <= i < |now| ensures now[i].next == if i + 1 < |now| then now[i + 1] else null {
      if i <= at {
        assert now[i] == nodes[i];
      } else if i > at + 1 {
        assert now[i] == nodes[i - 1] && nodes[i - 1].next == nx[i - 1];
      }
    }
  }

  lemma SplicedSeparate(nodes: seq<AddrInfo>, now: seq<AddrInfo>, at: nat, copy: AddrInfo)
    requires at < |nodes| && now == nodes[..at + 1] + [copy] + nodes[at + 1..]
    requires Separate(nodes) && forall i :: 0 <= i < |nodes| ==> nodes[i] != copy && nodes[i].addr != copy.addr
    ensures Separate(now)
    ensures NodeSet(now) == NodeSet(nodes) + {copy} && Addrs(now) == Addrs(nodes) + {copy.addr}
  {
    assert forall i :: 0 <= i < |nodes| ==> nodes[i] == now[if i <= at then i else i + 1];
    assert now[at + 1] == copy;
  }

  lemma SplicedValues(nodes: seq<AddrInfo>, now: seq<AddrInfo>, at: nat, copy: AddrInfo)
    requires at < |nodes| && now == nodes[..at + 1] + [copy] + nodes[at + 1..]
    ensures Values(now) == Values(nodes)[..at + 1] + [copy.Value()] + Values(nodes)[at + 1..]
  {
  }

  lemma AddrsAre(nodes: seq<AddrInfo>, owned: seq<SockAddr>)
    requires |nodes| == |owned| && forall i :: 0 <= i < |nodes| ==> nodes[i].addr == owned[i]
    ensures Addrs(nodes) == set i | 0 <= i < |owned| :: owned[i]
  {
  }

  lemma NotAmong(nodes: seq<AddrInfo>, at: nat)
    requires Separate(nodes) && at < |nodes|
    ensures forall i :: 0 <= i < |nodes| && i != at ==> nodes[i] != nodes[at] && nodes[i].addr != nodes[at].addr
  {
  }

  /** Clones the entry at position `at` of the list. */
  method CloneAt(ghost head: AddrInfo, ai: AddrInfo, ghost nodes: seq<AddrInfo>, ghost at: nat)
      returns (copy: AddrInfo, ghost now: seq<AddrInfo>)
    requires Linked(head, nodes) && Separate(nodes) && at < |nodes| && nodes[at] == ai
    modifies ai`next
    ensures fresh(copy) && fresh(copy.addr)
    ensures now == nodes[..at + 1] + [copy] + nodes[at + 1..]
    ensures Linked(head, now) && Separate(now)
    ensures NodeSet(now) == NodeSet(nodes) + {copy} && Addrs(now) == old(Addrs(nodes)) + {copy.addr}
    ensures var was := old(Values(nodes));
            Values(now) == was[..at + 1] + [was[at].(clone := false)] + was[at + 1..]
  {
    hide NodeSet;
    hide Addrs;
    hide Values;
    ghost var nx := seq(|nodes|, i requires 0 <= i < |nodes| => if i + 1 < |nodes| then nodes[i + 1] else null);
    ghost var owned := seq(|nodes|, i requires 0 <= i < |nodes| reads nodes => nodes[i].addr);
    AddrsAre(nodes, owned);
    NotAmong(nodes, at);
    copy := GaClone(ai);
    now := nodes[..at + 1] + [copy] + nodes[at + 1..];
    SplicedLinked(head, nodes, nx, now, at, copy);
    SplicedSeparate(nodes, now, at, copy);
    SplicedValues(nodes, now, at, copy);
    assert Values(nodes) == old(Values(nodes));
    AddrsAre(nodes, owned);
  }

  /** Sets the socket type and, where the family has one, the port. */
  method SetPort(ghost head: AddrInfo, cur: AddrInfo, ghost nodes: seq<AddrInfo>, ghost at: nat, c: Call)
      returns (found: nat)
    requires Linked(head, nodes) && Separate(nodes) && at < |nodes| && nodes[at] == cur
    modifies cur`socktype, cur.addr`port
    ensures Linked(head, nodes) && Separate(nodes)
    ensures Values(nodes) == old(Values(nodes))[at := Ported(old(cur.Value()), c)]
    ensures Addrs(nodes) == old(Addrs(nodes))
    ensures found == if HasPort(old(cur.Value())) then 1 else 0
  {
    hide Linked;
    hide Separate;
    hide Layout;
    hide NodeSet;
    hide Addrs;
    hide Values;
    ghost var was, nx, owned := Values(nodes), Nexts(nodes), Owned(nodes);
    LayoutIs(head, nodes);
    AddrsAre(nodes, owned);
    NotAmong(nodes, at);
    found := 0;
    cur.socktype := c.socktype;
    match cur.family {
      case AF_INET =>
        cur.addr.port := c.port;
        found := 1;
      case AF_INET6 =>
        cur.addr.port := c.port;
        found := 1;
      case AF_LOCAL =>
    }
    assert Nexts(nodes) == nx && Owned(nodes) == owned;
    LayoutIs(head, nodes);
    AddrsAre(nodes, owned);
    ValuesUpdated(nodes, at, was);
  }

  lemma ValuesUpdated(nodes: seq<AddrInfo>, at: nat, was: seq<Entry>)
    requires at < |nodes| == |was|
    requires forall i :: 0 <= i < |nodes| && i != at ==> nodes[i].Value() == was[i]
    ensures Values(nodes) == was[at := nodes[at].Value()]
  {
  }

  /** One round of ga_port's loop; n is how many entries it leaves for the one visited. */
  method Visit(ghost head: AddrInfo, ai: AddrInfo, ghost nodes: seq<AddrInfo>, ghost at: nat, c: Call)
      returns (following: AddrInfo?, found: nat, ghost now: seq<AddrInfo>, ghost n: nat)
    requires Linked(head, nodes) && Separate(nodes) && at < |nodes| && nodes[at] == ai
    modifies ai, ai.addr
    ensures Linked(head, now) && Separate(now)
    ensures var was := old(Values(nodes));
            Values(now) == was[..at] + Visited(was[at], c) + was[at + 1..]
    ensures n == |Visited(old(ai.Value()), c)| && |now| == |nodes| + n - 1 && now[at + n..] == nodes[at + 1..]
    ensures following == if at + n < |now| then now[at + n] else null
    ensures found == Found(old(ai.Value()), c)
    ensures fresh(NodeSet(now) - NodeSet(nodes)) && fresh(Addrs(now) - old(Addrs(nodes)))
  {
    hide Linked;
    hide Separate;
    hide NodeSet;
    hide Addrs;
    hide Values;
    hide Visited;
    hide Found;
    hide Ported;
    hide HasPort;
    ghost var was := Values(nodes);
    VisitCases(was, at, c);
    assert was[at] == ai.Value();
    Follows(head, nodes, at);
    if ai.clone {
      if ai.socktype != 0 {
        var copy;
        copy, now := CloneAt(head, ai, nodes, at);
        assert now[at + 2..] == nodes[at + 1..];
        found := SetPort(head, copy, now, at + 1, c);
        Follows(head, now, at + 1);
        return copy.next, found, now, 2;
      }
    } else if ai.socktype != c.socktype {
      return ai.next, 0, nodes, 1;
    }
    found := SetPort(head, ai, nodes, at, c);
    return ai.next, found, nodes, 1;
  }

  /** The three things a round can do to the values of the list. */
  lemma VisitCases(was: seq<Entry>, at: nat, c: Call)
    requires at < |was|
    ensures var e := was[at]; var all := was[..at] + Visited(e, c) + was[at + 1..];
            if e.clone && e.socktype != 0 then
              var cloned := was[..at + 1] + [e.(clone := false)] + was[at + 1..];
              && cloned[at + 1 := Ported(e.(clone := false), c)] == all
              && |Visited(e, c)| == 2 && Found(e, c) == if HasPort(e.(clone := false)) then 1 else 0
            else if e.clone || e.socktype == c.socktype then
              was[at := Ported(e, c)] == all && |Visited(e, c)| == 1 && Found(e, c) == if HasPort(e) then 1 else 0
            else was == all && |Visited(e, c)| == 1 && Found(e, c) == 0
  {
  }

  method GaPort(head: AddrInfo?, ghost nodes: seq<AddrInfo>, c: Call) returns (nfound: nat, ghost now: seq<AddrInfo>)
    requires Linked(head, nodes) && Separate(nodes)
    modifies nodes, Addrs(nodes)
    ensures Linked(head, now) && Separate(now)
    ensures Values(now) == PortList(old(Values(nodes)), c)
    ensures nfound == PortCount(old(Values(nodes)), c)
    ensures fresh(NodeSet(now) - NodeSet(nodes)) && fresh(Addrs(now) - old(Addrs(nodes)))
  {
    hide Walking;
    hide Linked;
    hide Separate;
    hide Values;
    hide PortList;
    hide PortCount;
    ghost var es := Values(nodes);
    ghost var w := Walk(nodes, 0, 0);
    nfound := 0;
    var ai := head;
    WalkStarts(head, nodes, c);
    while ai != null
      invariant Walking(head, nodes, es, c, w, ai, nfound)
      invariant fresh(NodeSet(w.now) - NodeSet(nodes)) && fresh(Addrs(w.now) - old(Addrs(nodes)))
      decreases |es| - w.k
    {
      WalkIn(head, nodes, es, c, w, ai, nfound);
      ghost var before, addrs := NodeSet(w.now), Addrs(w.now);
      ai, nfound, w := Round(head, nodes, es, c, w, ai, nfound);
      Fresher(NodeSet(nodes), before, NodeSet(w.now));
      Fresher(old(Addrs(nodes)), addrs, Addrs(w.now));
    }
    WalkEnds(head, nodes, es, c, w, nfound);
    now := w.now;
  }

  /** The list as it is now, where the walk stands in it, and how many of the original entries are behind. */
  datatype Walk = Walk(now: seq<AddrInfo>, at: nat, k: nat)

  ghost predicate Walking(head: AddrInfo?, nodes: seq<AddrInfo>, es: seq<Entry>, c: Call, w: Walk,
                          ai: AddrInfo?, nfound: nat)
    reads w.now, Addrs(w.now)
  {
    && Linked(head, w.now) && Separate(w.now) && |nodes| == |es|
    && Standing(w.now, nodes, w.at, w.k, ai)
    && Progress(es, w.k, c, Values(w.now), w.at, nfound)
  }

  lemma WalkStarts(head: AddrInfo?, nodes: seq<AddrInfo>, c: Call)
    requires Linked(head, nodes) && Separate(nodes)
    ensures Walking(head, nodes, Values(nodes), c, Walk(nodes, 0, 0), head, 0)
  {
    ProgressStart(Values(nodes), c);
    StandingStart(nodes, head);
  }

  lemma WalkIn(head: AddrInfo?, nodes: seq<AddrInfo>, es: seq<Entry>, c: Call, w: Walk, ai: AddrInfo, nfound: nat)
    requires Walking(head, nodes, es, c, w, ai, nfound)
    ensures ai in NodeSet(w.now) && ai.addr in Addrs(w.now) && w.k < |es| && ai in nodes
  {
    StandingAt(w.now, nodes, w.at, w.k, ai);
  }

  lemma WalkEnds(head: AddrInfo?, nodes: seq<AddrInfo>, es: seq<Entry>, c: Call, w: Walk, nfound: nat)
    requires Walking(head, nodes, es, c, w, null, nfound)
    ensures Linked(head, w.now) && Separate(w.now)
    ensures Values(w.now) == PortList(es, c) && nfound == PortCount(es, c)
  {
    StandingAt(w.now, nodes, w.at, w.k, null);
    ProgressEnd(es, c, Values(w.now), w.at, nfound);
  }

  /** The loop's body. */
  method Round(ghost head: AddrInfo?, ghost nodes: seq<AddrInfo>, ghost es: seq<Entry>, c: Call, ghost w: Walk,
               ai: AddrInfo, nfound: nat) returns (following: AddrInfo?, count: nat, ghost v: Walk)
    requires Walking(head, nodes, es, c, w, ai, nfound)
    modifies ai, ai.addr
    ensures Walking(head, nodes, es, c, v, following, count) && v.k == w.k + 1 <= |es|
    ensures fresh(NodeSet(v.now) - NodeSet(w.now)) && fresh(Addrs(v.now) - old(Addrs(w.now)))
  {
    hide Linked;
    hide Separate;
    hide NodeSet;
    hide Addrs;
    hide Values;
    hide Progress;
    hide Standing;
    hide Visited;
    hide Found;
    StandingAt(w.now, nodes, w.at, w.k, ai);
    Ends(head, w.now);
    ghost var was := Values(w.now);
    assert was[w.at] == ai.Value();
    var found: nat;
    ghost var n: nat, now: seq<AddrInfo>;
    following, found, now, n := Visit(head, ai, w.now, w.at, c);
    v := Walk(now, w.at + n, w.k + 1);
    count := nfound + found;
    ProgressStep(es, w.k, c, was, w.at, nfound, Values(now), n, found);
    StandingStep(w.now, nodes, w.at, w.k, ai, now, n, following);
  }

  lemma Fresher<T>(a: set<T>, b: set<T>, c: set<T>)
    ensures c - a <= (c - b) + (b - a)
  {
  }

  /** After k entries of the list: what it has become, where the walk stands in it, and the count. */
  ghost predicate Progress(es: seq<Entry>, k: nat, c: Call, vals: seq<Entry>, at: nat, nfound: nat) {
    && k <= |es| && vals == PortList(es[..k], c) + es[k..]
    && at == |PortList(es[..k], c)| && nfound == PortCount(es[..k], c)
  }

  lemma ProgressStart(es: seq<Entry>, c: Call)
    ensures Progress(es, 0, c, es, 0, 0)
  {
    assert PortList(es[..0], c) == [];
  }

  lemma ProgressStep(es: seq<Entry>, k: nat, c: Call, vals: seq<Entry>, at: nat, nfound: nat,
                     next: seq<Entry>, n: nat, found: nat)
    requires Progress(es, k, c, vals, at, nfound) && k < |es| && at < |vals|
    requires next == vals[..at] + Visited(vals[at], c) + vals[at + 1..]
    requires n == |Visited(vals[at], c)| && found == Found(vals[at], c)
    ensures Progress(es, k + 1, c, next, at + n, nfound + found)
  {
    hide Visited;
    hide Found;
    assert Front(es[..k + 1]) == es[..k];
    assert vals[at] == es[k] && vals[..at] == PortList(es[..k], c) && vals[at + 1..] == es[k + 1..];
  }

  lemma ProgressEnd(es: seq<Entry>, c: Call, vals: seq<Entry>, at: nat, nfound: nat)
    requires Progress(es, |es|, c, vals, at, nfound)
    ensures vals == PortList(es, c) && nfound == PortCount(es, c)
  {
    assert es[..|es|] == es && es[|es|..] == [];
  }

  /** From position `at` on the list is still the original one from position k on. */
  ghost predicate Standing(now: seq<AddrInfo>, nodes: seq<AddrInfo>, at: nat, k: nat, ai: AddrInfo?) {
    && at <= |now| && k <= |nodes| && now[at..] == nodes[k..]
    && ai == if at < |now| then now[at] else null
  }

  lemma StandingStart(nodes: seq<AddrInfo>, head: AddrInfo?)
    requires head == if nodes == [] then null else nodes[0]
    ensures Standing(nodes, nodes, 0, 0, head)
  {
  }

  lemma StandingAt(now: seq<AddrInfo>, nodes: seq<AddrInfo>, at: nat, k: nat, ai: AddrInfo?)
    requires Standing(now, nodes, at, k, ai)
    ensures ai != null ==> at < |now| && k < |nodes| && now[at] == ai == nodes[k]
    ensures ai == null ==> at == |now| && k == |nodes|
  {
    assert |now[at..]| == |nodes[k..]|;
    if ai != null {
      assert now[at..][0] == nodes[k..][0];
    }
  }

  lemma StandingStep(now: seq<AddrInfo>, nodes: seq<AddrInfo>, at: nat, k: nat, ai: AddrInfo,
                     next: seq<AddrInfo>, n: nat, following: AddrInfo?)
    requires Standing(now, nodes, at, k, ai) && at + n <= |next| && at < |now|
    requires next[at + n..] == now[at + 1..]
    requires following == if at + n < |next| then next[at + n] else null
    ensures Standing(next, nodes, at + n, k + 1, following)
  {
    assert |now[at..]| == |nodes[k..]|;
    assert now[at + 1..] == now[at..][1..] && nodes[k + 1..] == nodes[k..][1..];
  }

  lemma Ends(head: AddrInfo?, nodes: seq<AddrInfo>)
    requires Linked(head, nodes)
    ensures head == if nodes == [] then null else nodes[0]
  {
  }

  lemma Follows(head: AddrInfo?, nodes: seq<AddrInfo>, i: nat)
    requires Linked(head, nodes) && i < |nodes|
    ensures nodes[i].next == if i + 1 < |nodes| then nodes[i + 1] else null
  {
  }

  /** The list under construction; `tail` is the node whose next field is to be filled, null for the head. */
  class Builder {
    var head: AddrInfo?
    var tail: AddrInfo?

    constructor ()
      ensures head == null && tail == null
    {
      head, tail := null, null;
    }
  }

  ghost predicate Building(b: Builder, nodes: seq<AddrInfo>)
    reads b, nodes
  {
    && Linked(b.head, nodes) && Separate(nodes)
    && b.tail == if nodes == [] then null else nodes[|nodes| - 1]
  }

  /** Stores a new node through the tail pointer. */
  method Append(b: Builder, ghost nodes: seq<AddrInfo>, ai: AddrInfo) returns (ghost now: seq<AddrInfo>)
    requires Building(b, nodes) && ai.next == null
    requires ai !in nodes && ai.addr !in Owned(nodes)
    modifies b, nodes
    ensures now == nodes + [ai] && Building(b, now)
    ensures NodeSet(now) == NodeSet(nodes) + {ai} && Addrs(now) == old(Addrs(nodes)) + {ai.addr}
    ensures Values(now) == old(Values(nodes)) + [ai.Value()] && ai.Value() == old(ai.Value())
  {
    hide Linked;
    hide Separate;
    hide Layout;
    hide NodeSet;
    hide Addrs;
    hide Values;
    ghost var was, nx, owned := Values(nodes), Nexts(nodes), Owned(nodes);
    LayoutIs(b.head, nodes);
    AddrsAre(nodes, owned);
    LayoutGrows(b.head, nodes, nx, owned, ai, ai.addr);
    if b.tail == null {
      b.head := ai;
    } else {
      NotAmong(nodes, |nodes| - 1);
      b.tail.next := ai;
    }
    b.tail := ai;
    now := nodes + [ai];
    GrownFrom(nodes, ai, nx, owned);
    LayoutIs(b.head, now);
    AddrsGrow(now, owned, ai.addr);
    NodesGrow(nodes, ai);
    ValuesGrow(nodes, ai, was);
  }

  ghost function NextsGrown(nx: seq<AddrInfo?>, ai: AddrInfo): seq<AddrInfo?> {
    (if nx == [] then [] else nx[|nx| - 1 := ai]) + [null]
  }

  lemma GrownFrom(nodes: seq<AddrInfo>, ai: AddrInfo, nx: seq<AddrInfo?>, owned: seq<SockAddr>)
    requires |nx| == |owned| == |nodes| && ai.next == null
    requires forall i :: 0 <= i < |nodes| ==> nodes[i].addr == owned[i]
    requires forall i :: 0 <= i < |nodes| ==> nodes[i].next == if i < |nodes| - 1 then nx[i] else ai
    ensures Nexts(nodes + [ai]) == NextsGrown(nx, ai) && Owned(nodes + [ai]) == owned + [ai.addr]
  {
  }

  lemma LayoutGrows(head: AddrInfo?, nodes: seq<AddrInfo>, nx: seq<AddrInfo?>, owned: seq<SockAddr>,
                    ai: AddrInfo, addr: SockAddr)
    requires Layout(head, nodes, nx, owned) && ai !in nodes && addr !in owned
    ensures Layout(if nodes == [] then ai else head, nodes + [ai], NextsGrown(nx, ai), owned + [addr])
  {
  }

  lemma NodesGrow(nodes: seq<AddrInfo>, ai: AddrInfo)
    ensures NodeSet(nodes + [ai]) == NodeSet(nodes) + {ai}
  {
    assert (nodes + [ai])[|nodes|] == ai;
    assert forall i :: 0 <= i < |nodes| ==> (nodes + [ai])[i] == nodes[i];
  }

  lemma AddrsGrow(now: seq<AddrInfo>, owned: seq<SockAddr>, addr: SockAddr)
    requires Owned(now) == owned + [addr]
    ensures Addrs(now) == (set i | 0 <= i < |owned| :: owned[i]) + {addr}
  {
    AddrsAre(now, owned + [addr]);
    assert (owned + [addr])[|owned|] == addr;
    assert forall i :: 0 <= i < |owned| ==> (owned + [addr])[i] == owned[i];
  }

  lemma ValuesGrow(nodes: seq<AddrInfo>, ai: AddrInfo, was: seq<Entry>)
    requires |was| == |nodes| && forall i :: 0 <= i < |nodes| ==> nodes[i].Value() == was[i]
    ensures Values(nodes + [ai]) == was + [ai.Value()]
  {
  }

  /** ga_aistruct: appends one entry, to be cloned when no type is asked for. A path that does not fit is an error,
      but by then the entry is in the list, without its address. `unlinks` tells whether the path is removed. */
  method GaAistruct(b: Builder, ghost nodes: seq<AddrInfo>, socktype: int, protocol: int,
                    address: seq<Byte>, family: Family, sunPath: nat, passive: bool)
      returns (rc: int, unlinks: bool, ghost now: seq<AddrInfo>)
    requires Building(b, nodes)
    modifies b, nodes
    ensures Building(b, now)
    ensures rc == if family.AF_LOCAL? && |address| >= sunPath then EAI_SERVICE else 0
    ensures unlinks <==> family.AF_LOCAL? && passive && rc == 0
    ensures Values(now) == old(Values(nodes)) +
              [Entry(socktype == 0, family, socktype, protocol, if rc == 0 then address else [], 0)]
    ensures fresh(NodeSet(now) - NodeSet(nodes)) && fresh(Addrs(now) - old(Addrs(nodes)))
  {
    hide Values;
    hide Linked;
    hide Separate;
    hide NodeSet;
    hide Addrs;
    hide Building;
    var tooLong := family.AF_LOCAL? && |address| >= sunPath;
    var addr := new SockAddr(if tooLong then [] else address, 0);
    var ai := new AddrInfo(socktype == 0, family, socktype, protocol, addr, null);
    ghost var e := ai.Value();
    assert e == Entry(socktype == 0, family, socktype, protocol, if tooLong then [] else address, 0);
    now := Append(b, nodes, ai);
    rc := if tooLong then EAI_SERVICE else 0;
    unlinks := family.AF_LOCAL? && !tooLong && passive;
  }

  /** ga_port for one socket type after the other, as many as there are. */
  method GaPorts(head: AddrInfo?, ghost nodes: seq<AddrInfo>, calls: seq<Call>)
      returns (nfound: nat, ghost now: seq<AddrInfo>)
    requires Linked(head, nodes) && Separate(nodes)
    modifies nodes, Addrs(nodes)
    ensures Linked(head, now) && Separate(now)
    ensures Values(now) == AfterCalls(old(Values(nodes)), calls)
    ensures nfound == TotalFound(old(Values(nodes)), calls)
    ensures var es := old(Values(nodes));
            calls != [] && DistinctTypes(calls) && (forall i :: 0 <= i < |es| ==> Untyped(es[i])) ==>
              && |now| == nfound == |nodes| * |calls|
              && forall i, j :: 0 <= i < |es| && 0 <= j < |calls| ==> Placed(Values(now), es, calls, i, j)
    ensures fresh(NodeSet(now) - NodeSet(nodes)) && fresh(Addrs(now) - old(Addrs(nodes)))
  {
    hide Linked;
    hide Separate;
    hide Values;
    hide PortList;
    hide PortCount;
    ghost var es := Values(nodes);
    nfound, now := 0, nodes;
    for k := 0 to |calls|
      invariant Linked(head, now) && Separate(now)
      invariant Values(now) == AfterCalls(es, calls[..k]) && nfound == TotalFound(es, calls[..k])
      invariant fresh(NodeSet(now) - NodeSet(nodes)) && fresh(Addrs(now) - old(Addrs(nodes)))
    {
      assert Front(calls[..k + 1]) == calls[..k];
      ghost var before, addrs := NodeSet(now), Addrs(now);
      var n;
      n, now := GaPort(head, now, calls[k]);
      nfound := nfound + n;
      Fresher(NodeSet(nodes), before, NodeSet(now));
      Fresher(old(Addrs(nodes)), addrs, Addrs(now));
    }
    assert calls[..|calls|] == calls;
    if calls != [] && DistinctTypes(calls) && forall i :: 0 <= i < |es| ==> Untyped(es[i]) {
      CrossProduct(es, calls);
      CallsMakeGroups(es, calls);
    }
  }

  /** ga_serv: every ga_port call the service string asks for, then the return code. */
  method GaServ(head: AddrInfo?, ghost nodes: seq<AddrInfo>, socktype: int, serv: string,
                tcp: Option<Word>, udp: Option<Word>) returns (rc: int, ghost now: seq<AddrInfo>)
    requires Linked(head, nodes) && Separate(nodes)
    modifies nodes, Addrs(nodes)
    ensures Linked(head, now) && Separate(now)
    ensures var calls := ServCalls(socktype, serv, tcp, udp);
            && Values(now) == AfterCalls(old(Values(nodes)), calls)
            && rc == ServResult(TotalFound(old(Values(nodes)), calls), socktype)
            && rc in {0, EAI_NONAME, EAI_SERVICE}
            && (rc == 0 <==> TotalFound(old(Values(nodes)), calls) > 0)
            && (rc == EAI_NONAME ==> socktype == 0) && (rc == EAI_SERVICE ==> socktype != 0)
    ensures var es := old(Values(nodes));
            serv != "" && IsDigit(serv[0]) && socktype != 0 && (forall i :: 0 <= i < |es| ==> !es[i].clone) ==>
              var c := Call(Atoi(serv) % 0x1_0000, socktype);
              && |now| == |nodes|
              && (forall i :: 0 <= i < |es| ==>
                    Values(now)[i] == if Takes(es[i], c) then es[i].(port := c.port) else es[i])
              && (rc == 0 <==> exists i :: 0 <= i < |es| && Takes(es[i], c))
  {
    hide Linked;
    hide Separate;
    hide Values;
    hide PortList;
    hide PortCount;
    hide Atoi;
    ghost var es := Values(nodes);
    var nfound, n := 0, 0;
    now := nodes;
    if serv != "" && IsDigit(serv[0]) {
      var port := Atoi(serv) % 0x1_0000;
      if socktype != 0 {
        n, now := GaPort(head, nodes, Call(port, socktype));
        nfound := nfound + n;
        OneCall(es, Call(port, socktype));
        TypedService(es, Call(port, socktype));
      } else {
        n, now := GaPort(head, nodes, Call(port, SOCK_STREAM));
        nfound := nfound + n;
        n, now := GaPort(head, now, Call(port, SOCK_DGRAM));
        nfound := nfound + n;
        TwoCalls(es, Call(port, SOCK_STREAM), Call(port, SOCK_DGRAM));
      }
    } else {
      var calls: seq<Call> := [];
      if socktype == 0 || socktype == SOCK_STREAM {
        if tcp.Some? {
          n, now := GaPort(head, nodes, Call(tcp.value, SOCK_STREAM));
          nfound := nfound + n;
          OneCall(es, Call(tcp.value, SOCK_STREAM));
          calls := [Call(tcp.value, SOCK_STREAM)];
        }
      }
      if socktype == 0 || socktype == SOCK_DGRAM {
        if udp.Some? {
          n, now := GaPort(head, now, Call(udp.value, SOCK_DGRAM));
          nfound := nfound + n;
          if calls == [] {
            OneCall(es, Call(udp.value, SOCK_DGRAM));
          } else {
            TwoCalls(es, calls[0], Call(udp.value, SOCK_DGRAM));
          }
        }
      }
    }
    if nfound == 0 {
      if socktype == 0 {
        return EAI_NONAME, now;
      } else {
        return EAI_SERVICE, now;
      }
    }
    return 0, now;
  }

  /** With the type in the hint every entry of it gets the port. */
  lemma TypedService(es: seq<Entry>, c: Call)
    ensures (forall i :: 0 <= i < |es| ==> !es[i].clone) ==>
              var r := PortList(es, c);
              && |r| == |es|
              && (forall i :: 0 <= i < |es| ==> r[i] == if Takes(es[i], c) then es[i].(port := c.port) else es[i])
              && (PortCount(es, c) > 0 <==> exists i :: 0 <= i < |es| && Takes(es[i], c))
  {
    if forall i :: 0 <= i < |es| ==> !es[i].clone {
      TypedList(es, c);
      var all := set i | 0 <= i < |es| && Takes(es[i], c);
      if i :| 0 <= i < |es| && Takes(es[i], c) {
        assert i in all;
      } else {
        assert all == {};
      }
    }
  }

  lemma OneCall(es: seq<Entry>, c: Call)
    ensures AfterCalls(es, [c]) == PortList(es, c) && TotalFound(es, [c]) == PortCount(es, c)
  {
    assert Front([c]) == [];
  }

  lemma TwoCalls(es: seq<Entry>, c: Call, d: Call)
    ensures AfterCalls(es, [c, d]) == PortList(PortList(es, c), d)
    ensures TotalFound(es, [c, d]) == PortCount(es, c) + PortCount(PortList(es, c), d)
  {
    assert Front([c, d]) == [c];
    OneCall(es, c);
  }
}
