/** The single-process echo server over select: a table of clients, and three summaries of it. */
module SelectServer {
  import opened Text

  const FD_SETSIZE := 1024

  /** A transfer on one connection. */
  datatype Io = Io(fd: int, bytes: seq<Byte>)

  /** got and put record everything read from and written to clients; served, per pass, who was read. */
  datatype State = State(listenfd: int, client: seq<int>, allset: set<int>, maxi: int, maxfd: int,
                         got: seq<Io>, put: seq<Io>)

  datatype Outcome = Running(s: State) | TooManyClients

  /** One Select: the descriptors reported, the descriptor accept would give, what each read would give. */
  datatype Pass = Pass(ready: set<int>, connfd: int, input: map<int, seq<Byte>>)

  function Input(p: Pass, fd: int): seq<Byte> {
    var b := if fd in p.input then p.input[fd] else [];
    if |b| <= MAXLINE then b else b[..MAXLINE]
  }

  predicate Free(entry: int) { entry < 0 }

  function AcceptClient(s: State, connfd: int): Outcome {
    var i := FirstWith(s.client, Free);
    if i == |s.client| then TooManyClients
    else Running(s.(client := s.client[i := connfd], allset := s.allset + {connfd},
                    maxfd := Max(s.maxfd, connfd), maxi := Max(s.maxi, i)))
  }

  /** Reads the client in entry i once: an end of file closes it, anything else is sent back. */
  function ServeClient(s: State, i: nat, p: Pass): State
    requires i < |s.client|
  {
    var fd := s.client[i];
    var b := Input(p, fd);
    if b == [] then s.(client := s.client[i := -1], allset := s.allset - {fd}, got := s.got + [Io(fd, b)])
    else s.(got := s.got + [Io(fd, b)], put := s.put + [Io(fd, b)])
  }

  /** Every entry from i up to maxi whose descriptor was reported. */
  function ServeFrom(s: State, i: nat, rset: set<int>, p: Pass): State
    decreases |s.client| - i
  {
    if i >= |s.client| || i > s.maxi then s
    else ServeFrom(if s.client[i] >= 0 && s.client[i] in rset then ServeClient(s, i, p) else s, i + 1, rset, p)
  }

  function Turn(s: State, p: Pass): Outcome {
    var rset := p.ready * s.allset;
    var o := if s.listenfd in rset then AcceptClient(s, p.connfd) else Running(s);
    match o
    case TooManyClients => TooManyClients
    case Running(t) => Running(ServeFrom(t, 0, rset, p))
  }

  /** The kernel reports something, and gives a new connection a descriptor that is not in use. */
  ghost predicate Possible(s: State, p: Pass) {
    p.ready * s.allset != {} && p.connfd >= 0 && p.connfd !in s.allset
  }

  ghost predicate Runs(s: State, passes: seq<Pass>, t: State)
    decreases |passes|
  {
    if passes == [] then t == s
    else Possible(s, passes[0]) && Turn(s, passes[0]).Running? && Runs(Turn(s, passes[0]).s, passes[1..], t)
  }

  function Start(listenfd: int): State {
    State(listenfd, seq(FD_SETSIZE, _ => -1), {listenfd}, -1, listenfd, [], [])
  }

  // ----- the invariant -----

  ghost predicate TableOk(s: State) {
    && s.listenfd >= 0
    && (forall fd :: fd in s.allset <==> fd == s.listenfd || (fd >= 0 && fd in s.client))
    && (forall i, j :: 0 <= i < j < |s.client| && s.client[i] >= 0 ==> s.client[i] != s.client[j])
    && s.listenfd !in s.client
    && (forall i :: 0 <= i < |s.client| && s.client[i] >= 0 ==> i <= s.maxi)
    && -1 <= s.maxi < |s.client|
    && (forall fd :: fd in s.allset ==> fd <= s.maxfd)
  }

  /** What has been sent back: the non-empty reads, unchanged and in order. */
  function NonEmpty(ios: seq<Io>): seq<Io> {
    if ios == [] then [] else NonEmpty(Front(ios)) + if Last(ios).bytes != [] then [Last(ios)] else []
  }

  ghost predicate Inv(s: State) { TableOk(s) && |s.client| == FD_SETSIZE && s.put == NonEmpty(s.got) }

  lemma StartInv(listenfd: int)
    requires listenfd >= 0
    ensures Inv(Start(listenfd))
  {
  }

  lemma Membership(client: seq<int>, i: nat, v: int, fd: int)
    requires i < |client|
    requires forall j :: 0 <= j < |client| && j != i && client[j] >= 0 ==> client[j] != client[i]
    ensures fd >= 0 ==> (fd in client[i := v] <==> fd == v || (fd in client && fd != client[i]))
  {
    var t := client[i := v];
    if fd >= 0 && fd in t {
      var j :| 0 <= j < |t| && t[j] == fd;
      assert j != i ==> client[j] == fd;
    }
    if fd >= 0 && fd in client && fd != client[i] {
      var j :| 0 <= j < |client| && client[j] == fd;
      assert t[j] == fd;
    }
    assert t[i] == v;
  }

  lemma AcceptKeepsInv(s: State, connfd: int)
    requires Inv(s) && connfd >= 0 && connfd !in s.allset
    ensures AcceptClient(s, connfd).Running? ==> Inv(AcceptClient(s, connfd).s)
  {
    var i := FirstWith(s.client, Free);
    if i < |s.client| {
      var t := AcceptClient(s, connfd).s;
      forall fd ensures fd in t.allset <==> fd == t.listenfd || (fd >= 0 && fd in t.client) {
        Membership(s.client, i, connfd, fd);
      }
      Membership(s.client, i, connfd, s.listenfd);
    }
  }

  lemma ServeKeepsInv(s: State, i: nat, p: Pass)
    requires Inv(s) && i < |s.client| && s.client[i] >= 0
    ensures Inv(ServeClient(s, i, p))
  {
    hide Input;
    hide NonEmpty;
    hide TableOk;
    var fd := s.client[i];
    NonEmptySnoc(s.got, Io(fd, Input(p, fd)));
    SameTable(s, ServeClient(s, i, p));
    CloseKeepsTable(s, i, ServeClient(s, i, p));
  }

  lemma NonEmptySnoc(ios: seq<Io>, io: Io)
    ensures NonEmpty(ios + [io]) == if io.bytes == [] then NonEmpty(ios) else NonEmpty(ios) + [io]
  {
    assert Front(ios + [io]) == ios;
  }

  lemma SameTable(s: State, t: State)
    requires TableOk(s)
    ensures t.(got := s.got, put := s.put) == s ==> TableOk(t)
  {
  }

  lemma CloseKeepsTable(s: State, i: nat, t: State)
    requires TableOk(s) && i < |s.client| && s.client[i] >= 0
    ensures
      var u := s.(client := s.client[i := -1], allset := s.allset - {s.client[i]});
      t.(got := s.got, put := s.put) == u ==> TableOk(t)
  {
    var c := s.client[i := -1];
    forall d ensures d >= 0 ==> (d in c <==> d in s.client && d != s.client[i]) {
      Membership(s.client, i, -1, d);
    }
  }

  /** The entries from i on whose descriptors were reported. */
  function ReadyFrom(s: State, i: nat, rset: set<int>): set<int> {
    set j | i <= j < |s.client| && s.client[j] >= 0 && s.client[j] in rset :: s.client[j]
  }

  /** From entry i on, every reported client is read exactly once, in table order. */
  function ReadsFrom(s: State, i: nat, rset: set<int>, p: Pass): seq<Io>
    decreases |s.client| - i
  {
    if i >= |s.client| || i > s.maxi then []
    else (if s.client[i] >= 0 && s.client[i] in rset then [Io(s.client[i], Input(p, s.client[i]))] else [])
         + ReadsFrom(s, i + 1, rset, p)
  }

  lemma {:induction false} ReadsIgnoreEarlier(s: State, t: State, i: nat, rset: set<int>, p: Pass)
    requires |s.client| == |t.client| && s.maxi == t.maxi
    requires forall j :: i <= j < |s.client| ==> s.client[j] == t.client[j]
    ensures ReadsFrom(s, i, rset, p) == ReadsFrom(t, i, rset, p)
    decreases |s.client| - i
  {
    if i < |s.client| && i <= s.maxi {
      ReadsIgnoreEarlier(s, t, i + 1, rset, p);
    }
  }

  lemma ServeReadsOne(s: State, i: nat, p: Pass)
    requires i < |s.client|
    ensures var t := ServeClient(s, i, p);
            && t.got == s.got + [Io(s.client[i], Input(p, s.client[i]))] && t.maxi == s.maxi
            && |t.client| == |s.client| && forall j :: i < j < |s.client| ==> t.client[j] == s.client[j]
  {
  }

  lemma {:induction false} ServeFromReads(s: State, i: nat, rset: set<int>, p: Pass)
    requires Inv(s)
    ensures Inv(ServeFrom(s, i, rset, p))
    ensures ServeFrom(s, i, rset, p).got == s.got + ReadsFrom(s, i, rset, p)
    decreases |s.client| - i
  {
    hide ServeClient;
    hide Inv;
    if i < |s.client| && i <= s.maxi {
      var t := if s.client[i] >= 0 && s.client[i] in rset then ServeClient(s, i, p) else s;
      if s.client[i] >= 0 && s.client[i] in rset {
        ServeKeepsInv(s, i, p);
        ServeReadsOne(s, i, p);
        assert s.got + [Io(s.client[i], Input(p, s.client[i]))] + ReadsFrom(t, i + 1, rset, p)
            == s.got + ([Io(s.client[i], Input(p, s.client[i]))] + ReadsFrom(t, i + 1, rset, p));
      }
      ServeFromReads(t, i + 1, rset, p);
      ReadsIgnoreEarlier(s, t, i + 1, rset, p);
    } else {
      assert s.got + [] == s.got;
    }
  }

  function FdSet(ios: seq<Io>): set<int> { if ios == [] then {} else {ios[0].fd} + FdSet(ios[1..]) }

  lemma NoFds()
    ensures FdSet([]) == {}
  {
  }

  lemma FirstFd(ios: seq<Io>)
    requires ios != []
    ensures FdSet(ios) == {ios[0].fd} + FdSet(ios[1..])
  {
  }

  lemma ReadyNext(s: State, i: nat, rset: set<int>)
    requires TableOk(s) && i < |s.client|
    ensures var hit := s.client[i] >= 0 && s.client[i] in rset;
            && ReadyFrom(s, i, rset) == ReadyFrom(s, i + 1, rset) + (if hit then {s.client[i]} else {})
            && (hit ==> s.client[i] !in ReadyFrom(s, i + 1, rset))
  {
  }

  lemma NoneBeyond(s: State, i: nat, rset: set<int>)
    requires TableOk(s) && (i >= |s.client| || i > s.maxi)
    ensures ReadyFrom(s, i, rset) == {}
  {
  }

  /** Who is read: the reported clients, in as many reads as there are of them, so each exactly once. */
  lemma {:induction false} ReadsAreTheReady(s: State, i: nat, rset: set<int>, p: Pass)
    requires TableOk(s)
    ensures var r := ReadsFrom(s, i, rset, p);
            && FdSet(r) == ReadyFrom(s, i, rset) && |r| == |ReadyFrom(s, i, rset)|
            && (forall k :: 0 <= k < |r| ==> r[k].bytes == Input(p, r[k].fd))
    decreases |s.client| - i
  {
    hide Input;
    hide TableOk;
    hide ReadyFrom;
    hide FdSet;
    NoFds();
    if i < |s.client| && i <= s.maxi {
      ReadsAreTheReady(s, i + 1, rset, p);
      ReadyNext(s, i, rset);
      var r, rest := ReadsFrom(s, i, rset, p), ReadsFrom(s, i + 1, rset, p);
      if s.client[i] >= 0 && s.client[i] in rset {
        assert r[1..] == rest;
        FirstFd(r);
      } else {
        assert r == rest;
      }
    } else {
      NoneBeyond(s, i, rset);
    }
  }

  /** One turn from a good state: the state stays good, and what is read is exactly one read of each reported
      client, the new one and the listening socket not among them. */
  lemma TurnServesEachOnce(s: State, p: Pass)
    requires Inv(s) && Possible(s, p) && Turn(s, p).Running?
    ensures Inv(Turn(s, p).s) && s.got <= Turn(s, p).s.got
    ensures var rset, ios := p.ready * s.allset, Turn(s, p).s.got[|s.got|..];
            && FdSet(ios) == rset - {s.listenfd} && |ios| == |rset - {s.listenfd}|
            && (forall k :: 0 <= k < |ios| ==> ios[k].bytes == Input(p, ios[k].fd))
  {
    hide ReadyFrom;
    var rset := p.ready * s.allset;
    var u := s;
    if s.listenfd in rset {
      AcceptKeepsInv(s, p.connfd);
      u := AcceptClient(s, p.connfd).s;
    }
    ServeFromReads(u, 0, rset, p);
    ReadsAreTheReady(u, 0, rset, p);
    ReadyAfterAccept(s, u, rset);
    assert Turn(s, p).s.got[|s.got|..] == ReadsFrom(u, 0, rset, p);
  }

  /** Every run: allset is the listening socket and the table's descriptors, which are distinct and lie at or below
      maxi, maxfd bounds them, and every connection has been sent exactly what was read from it. */
  lemma {:induction false} EveryRun(s: State, passes: seq<Pass>, t: State)
    requires Inv(s) && Runs(s, passes, t)
    ensures Inv(t)
    decreases |passes|
  {
    if passes != [] {
      TurnServesEachOnce(s, passes[0]);
      EveryRun(Turn(s, passes[0]).s, passes[1..], t);
    }
  }

  // ----- what one turn does to each entry and each connection -----

  lemma {:induction false} ServeFromTable(s: State, i: nat, rset: set<int>, p: Pass)
    requires TableOk(s)
    ensures var t := ServeFrom(s, i, rset, p);
            && |t.client| == |s.client|
            && (forall j :: 0 <= j < |s.client| ==>
                  t.client[j] == if i <= j && s.client[j] >= 0 && s.client[j] in rset && Input(p, s.client[j]) == []
                                 then -1 else s.client[j])
    decreases |s.client| - i
  {
    hide Input;
    if i < |s.client| && i <= s.maxi {
      var hit := s.client[i] >= 0 && s.client[i] in rset;
      if hit {
        CloseKeepsTable(s, i, ServeClient(s, i, p));
        SameTable(s, ServeClient(s, i, p));
      }
      ServeFromTable(if hit then ServeClient(s, i, p) else s, i + 1, rset, p);
    }
  }

  /** One turn, entry by entry: a reported client whose read is empty is closed, the new client takes the first free
      entry, and every other entry stays. The turn ends the program exactly when there is no entry for a new client. */
  lemma TurnTable(s: State, p: Pass)
    requires Inv(s) && Possible(s, p)
    ensures var accepts, slot := s.listenfd in p.ready, FirstWith(s.client, Free);
            && (Turn(s, p).TooManyClients? <==> accepts && forall i :: 0 <= i < |s.client| ==> s.client[i] >= 0)
            && (Turn(s, p).Running? ==>
                  var t := Turn(s, p).s;
                  && |t.client| == |s.client|
                  && forall i :: 0 <= i < |s.client| ==>
                       t.client[i] ==
                         if s.client[i] >= 0 then
                           if s.client[i] in p.ready && Input(p, s.client[i]) == [] then -1 else s.client[i]
                         else if accepts && i == slot then p.connfd else s.client[i])
  {
    hide Input;
    hide ServeFrom;
    assert s.listenfd in s.allset;
    var rset := p.ready * s.allset;
    var u := s;
    if s.listenfd in rset && FirstWith(s.client, Free) < |s.client| {
      AcceptKeepsInv(s, p.connfd);
      u := AcceptClient(s, p.connfd).s;
    }
    ServeFromTable(u, 0, rset, p);
  }

  /** All the bytes of one connection, in order. */
  function BytesFor(ios: seq<Io>, fd: int): seq<Byte> {
    if ios == [] then [] else (if ios[0].fd == fd then ios[0].bytes else []) + BytesFor(ios[1..], fd)
  }

  lemma {:induction false} BytesForConcat(a: seq<Io>, b: seq<Io>, fd: int)
    ensures BytesFor(a + b, fd) == BytesFor(a, fd) + BytesFor(b, fd)
  {
    if a == [] {
      assert a + b == b;
    } else {
      BytesForConcat(a[1..], b, fd);
      assert (a + b)[1..] == a[1..] + b;
    }
  }

  lemma OneIo(io: Io, fd: int)
    ensures BytesFor([io], fd) == if io.fd == fd then io.bytes else []
  {
    assert [io][1..] == [];
    assert io.bytes + [] == io.bytes;
  }

  lemma {:induction false} EmptyReadsAddNothing(ios: seq<Io>, fd: int)
    ensures BytesFor(NonEmpty(ios), fd) == BytesFor(ios, fd)
  {
    if ios != [] {
      EmptyReadsAddNothing(Front(ios), fd);
      assert ios == Front(ios) + [Last(ios)];
      BytesForConcat(Front(ios), [Last(ios)], fd);
      BytesForConcat(NonEmpty(Front(ios)), [Last(ios)], fd);
      OneIo(Last(ios), fd);
      assert NonEmpty(Front(ios)) + [] == NonEmpty(Front(ios));
    }
  }

  lemma {:induction false} ReadOf(s: State, i: nat, rset: set<int>, p: Pass, fd: int)
    requires TableOk(s)
    ensures BytesFor(ReadsFrom(s, i, rset, p), fd) == if fd in ReadyFrom(s, i, rset) then Input(p, fd) else []
    decreases |s.client| - i
  {
    hide Input;
    hide TableOk;
    hide ReadyFrom;
    if i < |s.client| && i <= s.maxi {
      ReadOf(s, i + 1, rset, p, fd);
      ReadyNext(s, i, rset);
      var io := Io(s.client[i], Input(p, s.client[i]));
      if s.client[i] >= 0 && s.client[i] in rset {
        BytesForConcat([io], ReadsFrom(s, i + 1, rset, p), fd);
        OneIo(io, fd);
        assert Input(p, fd) + [] == Input(p, fd);
      } else {
        assert [] + ReadsFrom(s, i + 1, rset, p) == ReadsFrom(s, i + 1, rset, p);
      }
    } else {
      NoneBeyond(s, i, rset);
    }
  }

  /** One turn, connection by connection: a reported client is sent what one read of it gives, and nobody else is sent
      anything. */
  lemma TurnEchoes(s: State, p: Pass, fd: int)
    requires Inv(s) && Possible(s, p) && Turn(s, p).Running?
    ensures var t := Turn(s, p).s;
            var read := if fd in p.ready && fd >= 0 && fd in s.client then Input(p, fd) else [];
            BytesFor(t.put, fd) == BytesFor(s.put, fd) + read && BytesFor(t.got, fd) == BytesFor(s.got, fd) + read
  {
    hide ReadyFrom;
    hide Input;
    hide ServeFrom;
    hide NonEmpty;
    var rset := p.ready * s.allset;
    var u := s;
    if s.listenfd in rset {
      AcceptKeepsInv(s, p.connfd);
      u := AcceptClient(s, p.connfd).s;
    }
    ServeFromReads(u, 0, rset, p);
    ReadyAfterAccept(s, u, rset);
    ReadOf(u, 0, rset, p, fd);
    var t := Turn(s, p).s;
    BytesForConcat(s.got, ReadsFrom(u, 0, rset, p), fd);
    EmptyReadsAddNothing(s.got, fd);
    EmptyReadsAddNothing(t.got, fd);
  }

  // ----- the code -----

  class Server {
    const listenfd: int
    const client: array<int>
    var allset: set<int>
    var maxi: int
    var maxfd: int
    ghost var got: seq<Io>
    ghost var put: seq<Io>

    ghost function Abs(): State
      reads this, client
    {
      State(listenfd, client[..], allset, maxi, maxfd, got, put)
    }

    constructor (listenfd: int)
      ensures Abs() == Start(listenfd) && fresh(client)
    {
      this.listenfd := listenfd;
      client := new int[FD_SETSIZE](_ => -1);
      allset, maxi, maxfd := {listenfd}, -1, listenfd;
      got, put := [], [];
    }

    method Accept(connfd: int) returns (tooMany: bool)
      requires Inv(Abs())
      modifies this, client
      ensures tooMany == AcceptClient(old(Abs()), connfd).TooManyClients?
      ensures !tooMany ==> Running(Abs()) == AcceptClient(old(Abs()), connfd)
    {
      var i := 0;
      while i < FD_SETSIZE && client[i] >= 0
        invariant 0 <= i <= FD_SETSIZE
        invariant forall j :: 0 <= j < i ==> client[j] >= 0
      {
        i := i + 1;
      }
      FirstWithUnique(client[..], Free, i);
      if i == FD_SETSIZE {
        return true;
      }
      client[i] := connfd;
      allset := allset + {connfd};
      if connfd > maxfd {
        maxfd := connfd;
      }
      if i > maxi {
        maxi := i;
      }
      return false;
    }

    method ServeOne(i: nat, p: Pass)
      requires Inv(Abs()) && i < client.Length && client[i] >= 0
      modifies this, client
      ensures Abs() == ServeClient(old(Abs()), i, p)
    {
      var sockfd := client[i];
      var buf := Input(p, sockfd);
      got := got + [Io(sockfd, buf)];
      if buf == [] {
        allset := allset - {sockfd};
        client[i] := -1;
      } else {
        put := put + [Io(sockfd, buf)];
      }
    }

    /** One pass: the loop over the clients stops as soon as nready reaches zero, and yet does all that a scan of the
        whole table would do. */
    method OnePass(p: Pass) returns (tooMany: bool)
      requires Inv(Abs()) && Possible(Abs(), p)
      modifies this, client
      ensures tooMany == Turn(old(Abs()), p).TooManyClients?
      ensures !tooMany ==> Running(Abs()) == Turn(old(Abs()), p) && Inv(Abs())
    {
      hide ServeFrom;
      hide ReadyFrom;
      hide AcceptClient;
      hide ServeClient;
      hide Inv;
      var rset := p.ready * allset;
      var nready := |rset|;
      ghost var s := Abs();
      Sizes(s);
      if listenfd in rset {
        AcceptKeepsInv(s, p.connfd);
        AcceptAdds(s, p.connfd);
        tooMany := Accept(p.connfd);
        if tooMany {
          return;
        }
        nready := nready - 1;
      }
      ghost var u := Abs();
      ServeFromReads(u, 0, rset, p);
      ReadyAfterAccept(s, u, rset);
      ghost var left := ReadyFrom(u, 0, rset);
      assert nready == |left|;
      if nready <= 0 {
        NothingReady(u, 0, rset, p);
        return false;
      }
      var i := 0;
      Sizes(u);
      while i <= maxi
        invariant 0 <= i <= maxi + 1 && Inv(Abs())
        invariant ServeFrom(Abs(), i, rset, p) == ServeFrom(u, 0, rset, p)
        invariant nready == |ReadyFrom(Abs(), i, rset)| > 0
      {
        ghost var v := Abs();
        Sizes(v);
        ScanOne(v, i, rset, p);
        ReadyStep(v, i, rset, p);
        if client[i] >= 0 && client[i] in rset {
          ServeKeepsInv(v, i, p);
          ServeReadsOne(v, i, p);
          ServeOne(i, p);
          nready := nready - 1;
          if nready <= 0 {
            NothingReady(Abs(), i + 1, rset, p);
            break;
          }
        }
        i := i + 1;
      }
      if i > maxi {
        ScanPast(Abs(), i, rset, p);
      }
      return false;
    }
  }

  lemma Sizes(s: State)
    requires Inv(s)
    ensures |s.client| == FD_SETSIZE && -1 <= s.maxi < FD_SETSIZE && s.listenfd in s.allset
  {
  }

  lemma AcceptAdds(s: State, connfd: int)
    ensures AcceptClient(s, connfd).Running? ==>
              && AcceptClient(s, connfd).s.allset == s.allset + {connfd}
              && AcceptClient(s, connfd).s.listenfd == s.listenfd
  {
  }

  lemma ScanOne(s: State, i: nat, rset: set<int>, p: Pass)
    requires i < |s.client| && i <= s.maxi
    ensures ServeFrom(s, i, rset, p) ==
            ServeFrom(if s.client[i] >= 0 && s.client[i] in rset then ServeClient(s, i, p) else s, i + 1, rset, p)
  {
  }

  lemma ScanPast(s: State, i: nat, rset: set<int>, p: Pass)
    requires i > s.maxi
    ensures ServeFrom(s, i, rset, p) == s
  {
  }

  lemma ReadyAfterAccept(s: State, u: State, rset: set<int>)
    requires Inv(s) && Inv(u) && rset <= s.allset <= u.allset && u.listenfd == s.listenfd
    ensures ReadyFrom(u, 0, rset) == rset - {s.listenfd}
    ensures |ReadyFrom(u, 0, rset)| == |rset| - if s.listenfd in rset then 1 else 0
  {
    forall fd | fd in rset && fd != s.listenfd ensures fd in ReadyFrom(u, 0, rset) {
      assert fd in u.allset;
      var j :| 0 <= j < |u.client| && u.client[j] == fd;
    }
    assert ReadyFrom(u, 0, rset) == rset - {s.listenfd};
  }

  /** With no reported client left a scan changes nothing. */
  lemma {:induction false} NothingReady(s: State, i: nat, rset: set<int>, p: Pass)
    requires |ReadyFrom(s, i, rset)| == 0
    ensures ServeFrom(s, i, rset, p) == s
    decreases |s.client| - i
  {
    ReadyHolds(s, i, rset);
    if i < |s.client| && i <= s.maxi {
      NothingReady(s, i + 1, rset, p);
    }
  }

  lemma ReadyHolds(s: State, i: nat, rset: set<int>)
    ensures i < |s.client| && s.client[i] >= 0 && s.client[i] in rset ==> |ReadyFrom(s, i, rset)| > 0
    ensures |ReadyFrom(s, i, rset)| == 0 ==> |ReadyFrom(s, i + 1, rset)| == 0
  {
    if i < |s.client| && s.client[i] >= 0 && s.client[i] in rset {
      assert s.client[i] in ReadyFrom(s, i, rset);
    }
    if |ReadyFrom(s, i, rset)| == 0 {
      assert ReadyFrom(s, i + 1, rset) <= ReadyFrom(s, i, rset);
    }
  }

  lemma ReadyIgnoresEarlier(s: State, t: State, i: nat, rset: set<int>)
    requires |s.client| == |t.client| && forall j :: i <= j < |s.client| ==> s.client[j] == t.client[j]
    ensures ReadyFrom(s, i, rset) == ReadyFrom(t, i, rset)
  {
  }

  /** Passing one entry takes it, and nothing else, out of what is left to serve. */
  lemma ReadyStep(s: State, i: nat, rset: set<int>, p: Pass)
    requires Inv(s) && i < |s.client|
    ensures var hit := s.client[i] >= 0 && s.client[i] in rset;
            var t := if hit then ServeClient(s, i, p) else s;
            |ReadyFrom(t, i + 1, rset)| == |ReadyFrom(s, i, rset)| - if hit then 1 else 0
  {
    ReadyNext(s, i, rset);
    var hit := s.client[i] >= 0 && s.client[i] in rset;
    ReadyIgnoresEarlier(s, if hit then ServeClient(s, i, p) else s, i + 1, rset);
  }
}
