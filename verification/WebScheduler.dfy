/** web: fetching many files over at most maxnconn nonblocking connections at a time. */
module WebScheduler {
  import opened Text

  // ----- the files -----

  datatype Phase = Untouched | Connecting(fd: int) | Reading(fd: int) | Done

  predicate IsUntouched(p: Phase) { p.Untouched? }

  predicate Active(p: Phase) { p.Connecting? || p.Reading? }

  function CountActive(files: seq<Phase>): nat {
    if files == [] then 0 else CountActive(Front(files)) + if Active(Last(files)) then 1 else 0
  }

  function CountUntouched(files: seq<Phase>): nat {
    if files == [] then 0 else CountUntouched(Front(files)) + if Last(files).Untouched? then 1 else 0
  }

  lemma {:induction false} CountUpdate(files: seq<Phase>, i: nat, p: Phase)
    requires i < |files|
    ensures CountActive(files[i := p]) ==
            CountActive(files) + (if Active(p) then 1 else 0) - (if Active(files[i]) then 1 else 0)
    ensures CountUntouched(files[i := p]) ==
            CountUntouched(files) + (if p.Untouched? then 1 else 0) - (if files[i].Untouched? then 1 else 0)
  {
    var t := files[i := p];
    if i == |files| - 1 {
      assert Front(t) == Front(files);
    } else {
      CountUpdate(Front(files), i, p);
      assert Front(t) == Front(files)[i := p];
    }
  }

  lemma {:induction false} CountZero(files: seq<Phase>)
    ensures CountUntouched(files) == 0 <==> forall i :: 0 <= i < |files| ==> !files[i].Untouched?
    ensures CountActive(files) == 0 <==> forall i :: 0 <= i < |files| ==> !Active(files[i])
  {
    if files != [] {
      CountZero(Front(files));
    }
  }

  // ----- the scheduler -----

  datatype State = State(files: seq<Phase>, nconn: int, nlefttoconn: int, nlefttoread: int,
                         rset: set<int>, wset: set<int>, maxfd: int)

  /** What socket and connect answer: a descriptor not in use and whether the connection is there already.
      A failed call, and any answer the kernel cannot give, ends the program. */
  datatype Opening = Fails | Opens(fd: int, connected: bool)

  /** One turn of the outer loop: the connections opened, the two sets Select returns,
      and for each file whether a read of it would meet the end of file. */
  datatype Round = Round(openings: seq<Opening>, rs: set<int>, ws: set<int>, eof: seq<bool>)

  datatype Outcome = Running(w: State) | Finished(w: State) | Exited | NothingFound

  function WriteGetCmd(w: State, i: nat, fd: int): State
    requires i < |w.files|
  {
    w.(files := w.files[i := Reading(fd)], rset := w.rset + {fd}, maxfd := Max(w.maxfd, fd))
  }

  function StartConnect(w: State, i: nat, fd: int, connected: bool): State
    requires i < |w.files|
  {
    if connected then WriteGetCmd(w, i, fd)
    else
      w.(files := w.files[i := Connecting(fd)], rset := w.rset + {fd}, wset := w.wset + {fd},
         maxfd := Max(w.maxfd, fd))
  }

  /** A file gets its connection and is counted. */
  function Open(w: State, i: nat, o: Opening): State
    requires i < |w.files| && o.Opens?
  {
    var u := StartConnect(w, i, o.fd, o.connected);
    u.(nconn := u.nconn + 1, nlefttoconn := u.nlefttoconn - 1)
  }

  function Fill(w: State, maxnconn: int, openings: seq<Opening>): Outcome
    decreases |openings|
  {
    if !(w.nconn < maxnconn && w.nlefttoconn > 0) then Running(w)
    else
      var i := FirstWith(w.files, IsUntouched);
      if i == |w.files| then NothingFound
      else if openings == [] || openings[0].Fails? || openings[0].fd in w.rset then Exited
      else Fill(Open(w, i, openings[0]), maxnconn, openings[1..])
  }

  /** One file after Select: a connection that became ready gets its command, a readable one is read. */
  function Serve(w: State, i: nat, rs: set<int>, ws: set<int>, eof: bool): State
    requires i < |w.files|
  {
    match w.files[i]
    case Connecting(fd) =>
      if fd in rs || fd in ws then WriteGetCmd(w.(wset := w.wset - {fd}), i, fd) else w
    case Reading(fd) =>
      if fd in rs && eof then
        w.(files := w.files[i := Done], rset := w.rset - {fd}, nconn := w.nconn - 1, nlefttoread := w.nlefttoread - 1)
      else w
    case _ => w
  }

  function ServeFrom(w: State, i: nat, rs: set<int>, ws: set<int>, eof: seq<bool>): State
    requires i <= |w.files|
    decreases |w.files| - i
  {
    if i == |w.files| then w
    else ServeFrom(Serve(w, i, rs, ws, i < |eof| && eof[i]), i + 1, rs, ws, eof)
  }

  function Turn(w: State, maxnconn: int, r: Round): Outcome {
    if w.nlefttoread <= 0 then Finished(w)
    else match Fill(w, maxnconn, r.openings)
      case Running(u) => Running(ServeFrom(u, 0, r.rs * u.rset, r.ws * u.wset, r.eof))
      case other => other
  }

  function Run(w: State, maxnconn: int, rounds: seq<Round>): Outcome
    decreases |rounds|
  {
    if rounds == [] then Running(w)
    else match Turn(w, maxnconn, rounds[0])
      case Running(u) => Run(u, maxnconn, rounds[1..])
      case other => other
  }

  function Start(nfiles: nat): State {
    State(seq(nfiles, _ => Untouched), 0, nfiles, nfiles, {}, {}, -1)
  }

  // ----- the invariant -----

  /** The sets are exactly the descriptors in the matching phases, each of one file only. */
  ghost predicate SetsOk(w: State) {
    && (forall fd :: fd in w.wset <==> Connecting(fd) in w.files)
    && (forall fd :: fd in w.rset <==> Connecting(fd) in w.files || Reading(fd) in w.files)
    && (forall i, j :: 0 <= i < j < |w.files| && Active(w.files[i]) && Active(w.files[j]) ==>
          w.files[i].fd != w.files[j].fd)
    && (forall fd :: fd in w.rset ==> fd <= w.maxfd)
  }

  ghost predicate Inv(w: State, maxnconn: int) {
    && w.nconn == CountActive(w.files) <= maxnconn
    && w.nlefttoconn == CountUntouched(w.files)
    && w.nlefttoread == w.nconn + w.nlefttoconn
    && SetsOk(w)
  }

  lemma StartInv(nfiles: nat, maxnconn: int)
    requires maxnconn >= 1
    ensures Inv(Start(nfiles), maxnconn)
  {
    AllUntouched(nfiles);
  }

  lemma {:induction false} AllUntouched(n: nat)
    ensures CountActive(seq(n, _ => Untouched)) == 0 && CountUntouched(seq(n, _ => Untouched)) == n
  {
    if n > 0 {
      AllUntouched(n - 1);
      var f := seq(n, _ => Untouched);
      assert Front(f) == seq(n - 1, _ => Untouched);
    }
  }

  /** Membership after one file changes phase. */
  lemma Membership(files: seq<Phase>, i: nat, p: Phase, q: Phase)
    requires i < |files|
    requires forall j :: 0 <= j < |files| && j != i ==> files[j] != q || q != files[i]
    ensures q in files[i := p] <==> q == p || (q in files && q != files[i])
  {
    var t := files[i := p];
    if q in t {
      var j :| 0 <= j < |t| && t[j] == q;
      assert j != i ==> files[j] == q;
    }
    if q in files && q != files[i] {
      var j :| 0 <= j < |files| && files[j] == q;
      assert t[j] == q;
    }
    if q == p {
      assert t[i] == q;
    }
  }

  /** Replacing one file's phase: which descriptors appear afterwards. */
  lemma PhaseChange(w: State, i: nat, p: Phase, fd: int)
    requires SetsOk(w) && i < |w.files|
    ensures Connecting(fd) in w.files[i := p] <==>
              p == Connecting(fd) || (Connecting(fd) in w.files && w.files[i] != Connecting(fd))
    ensures Reading(fd) in w.files[i := p] <==>
              p == Reading(fd) || (Reading(fd) in w.files && w.files[i] != Reading(fd))
  {
    Membership(w.files, i, p, Connecting(fd));
    Membership(w.files, i, p, Reading(fd));
  }

  /** A descriptor belongs to one file in one phase. */
  lemma OneOwner(w: State, i: nat, fd: int)
    requires SetsOk(w) && i < |w.files| && Active(w.files[i]) && w.files[i].fd == fd
    ensures Connecting(fd) in w.files <==> w.files[i].Connecting?
    ensures Reading(fd) in w.files <==> w.files[i].Reading?
  {
  }

  lemma OpeningKeepsSets(w: State, i: nat, fd: int, connected: bool)
    requires SetsOk(w) && i < |w.files| && w.files[i].Untouched? && fd !in w.rset
    ensures SetsOk(StartConnect(w, i, fd, connected))
  {
    var u := StartConnect(w, i, fd, connected);
    forall d ensures d in u.wset <==> Connecting(d) in u.files
             ensures d in u.rset <==> Connecting(d) in u.files || Reading(d) in u.files {
      PhaseChange(w, i, u.files[i], d);
    }
    forall j | 0 <= j < |w.files| && Active(w.files[j]) ensures w.files[j].fd != fd {
      assert w.files[j] in w.files;
    }
  }

  lemma CommandKeepsSets(w: State, i: nat, fd: int)
    requires SetsOk(w) && i < |w.files| && w.files[i] == Connecting(fd)
    ensures SetsOk(WriteGetCmd(w.(wset := w.wset - {fd}), i, fd))
  {
    var u := WriteGetCmd(w.(wset := w.wset - {fd}), i, fd);
    OneOwner(w, i, fd);
    forall d ensures d in u.wset <==> Connecting(d) in u.files
             ensures d in u.rset <==> Connecting(d) in u.files || Reading(d) in u.files {
      PhaseChange(w, i, Reading(fd), d);
    }
  }

  lemma CloseKeepsSets(w: State, i: nat, fd: int, u: State)
    requires SetsOk(w) && i < |w.files| && w.files[i] == Reading(fd)
    requires u.files == w.files[i := Done] && u.rset == w.rset - {fd} && u.wset == w.wset && u.maxfd == w.maxfd
    ensures SetsOk(u)
  {
    OneOwner(w, i, fd);
    forall d ensures d in u.wset <==> Connecting(d) in u.files
             ensures d in u.rset <==> Connecting(d) in u.files || Reading(d) in u.files {
      PhaseChange(w, i, Done, d);
    }
  }

  /** "nothing found" is unreachable; connections are opened until the limit is met or no file is left. */
  lemma {:induction false} FillKeepsInv(w: State, maxnconn: int, openings: seq<Opening>)
    requires Inv(w, maxnconn)
    ensures var o := Fill(w, maxnconn, openings);
            && !o.NothingFound? && !o.Finished?
            && (o.Running? ==> Inv(o.w, maxnconn) && (o.w.nconn == maxnconn || o.w.nlefttoconn == 0)
                               && o.w.nlefttoread == w.nlefttoread && |o.w.files| == |w.files|)
    decreases |openings|
  {
    hide Inv;
    hide StartConnect;
    if w.nconn < maxnconn && w.nlefttoconn > 0 {
      if openings != [] && openings[0].Opens? && openings[0].fd !in w.rset {
        OpenKeepsInv(w, maxnconn, openings[0]);
        FillKeepsInv(Open(w, FirstWith(w.files, IsUntouched), openings[0]), maxnconn, openings[1..]);
      } else {
        SomethingToOpen(w, maxnconn);
      }
    } else {
      FullOrAllOpened(w, maxnconn);
    }
  }

  lemma SomethingToOpen(w: State, maxnconn: int)
    requires Inv(w, maxnconn) && w.nlefttoconn > 0
    ensures FirstWith(w.files, IsUntouched) < |w.files|
  {
    CountZero(w.files);
  }

  lemma FullOrAllOpened(w: State, maxnconn: int)
    requires Inv(w, maxnconn) && !(w.nconn < maxnconn && w.nlefttoconn > 0)
    ensures w.nconn == maxnconn || w.nlefttoconn == 0
  {
  }

  /** Opening the next file keeps counters and sets. */
  lemma OpenKeepsInv(w: State, maxnconn: int, o: Opening)
    requires Inv(w, maxnconn) && w.nconn < maxnconn && w.nlefttoconn > 0
    requires o.Opens? && o.fd !in w.rset
    ensures var i := FirstWith(w.files, IsUntouched);
            && i < |w.files| && Inv(Open(w, i, o), maxnconn)
            && Open(w, i, o).nlefttoread == w.nlefttoread && |Open(w, i, o).files| == |w.files|
  {
    hide SetsOk;
    SomethingToOpen(w, maxnconn);
    var i := FirstWith(w.files, IsUntouched);
    var u := StartConnect(w, i, o.fd, o.connected);
    CountUpdate(w.files, i, u.files[i]);
    OpeningKeepsSets(w, i, o.fd, o.connected);
    SameSets(u, Open(w, i, o));
  }

  lemma SameSets(u: State, v: State)
    requires SetsOk(u) && v == u.(nconn := v.nconn, nlefttoconn := v.nlefttoconn)
    ensures SetsOk(v)
  {
  }

  lemma ServeKeepsInv(w: State, maxnconn: int, i: nat, rs: set<int>, ws: set<int>, eof: bool)
    requires Inv(w, maxnconn) && i < |w.files|
    ensures Inv(Serve(w, i, rs, ws, eof), maxnconn)
  {
    var u := Serve(w, i, rs, ws, eof);
    assert SetsOk(w);
    CountUpdate(w.files, i, u.files[i]);
    assert u.files == w.files[i := u.files[i]];
    if u != w {
      match w.files[i]
      case Connecting(fd) => CommandKeepsSets(w, i, fd);
      case Reading(fd) => CloseKeepsSets(w, i, fd, u);
    }
    assert SetsOk(u);
  }

  lemma {:induction false} ServeFromKeepsInv(w: State, maxnconn: int, i: nat,
                                             rs: set<int>, ws: set<int>, eof: seq<bool>)
    requires Inv(w, maxnconn) && i <= |w.files|
    ensures Inv(ServeFrom(w, i, rs, ws, eof), maxnconn)
    decreases |w.files| - i
  {
    if i < |w.files| {
      var e := i < |eof| && eof[i];
      ServeKeepsInv(w, maxnconn, i, rs, ws, e);
      ServeFromKeepsInv(Serve(w, i, rs, ws, e), maxnconn, i + 1, rs, ws, eof);
    }
  }

  lemma TurnKeepsInv(w: State, maxnconn: int, r: Round)
    requires Inv(w, maxnconn)
    ensures var o := Turn(w, maxnconn, r);
            !o.NothingFound? && (o.Running? || o.Finished? ==> Inv(o.w, maxnconn))
            && (o.Finished? ==> o.w.nlefttoread == 0)
  {
    FillKeepsInv(w, maxnconn, r.openings);
    var o := Fill(w, maxnconn, r.openings);
    if o.Running? {
      ServeFromKeepsInv(o.w, maxnconn, 0, r.rs * o.w.rset, r.ws * o.w.wset, r.eof);
    }
  }

  /** Every run with at least one connection allowed: the counters are what they are named for, the sets exactly the
      descriptors in their phases, "nothing found" never happens, and the program ends only when every file has
      been read, with nothing left in either set. */
  lemma {:induction false} EveryRun(w: State, maxnconn: int, rounds: seq<Round>)
    requires maxnconn >= 1 && Inv(w, maxnconn)
    ensures var o := Run(w, maxnconn, rounds);
            && !o.NothingFound?
            && (o.Running? ==> Inv(o.w, maxnconn))
            && (o.Finished? ==> o.w.rset == o.w.wset == {} && forall i :: 0 <= i < |o.w.files| ==> o.w.files[i] == Done)
    decreases |rounds|
  {
    if rounds != [] {
      TurnKeepsInv(w, maxnconn, rounds[0]);
      var o := Turn(w, maxnconn, rounds[0]);
      if o.Running? {
        EveryRun(o.w, maxnconn, rounds[1..]);
      } else if o.Finished? {
        CountZero(o.w.files);
        assert forall fd :: fd !in o.w.rset && fd !in o.w.wset;
      }
    }
  }

  /** At every Select something is watched, and no more than the allowed number of connections is open. */
  lemma SelectWaitsOnSomething(w: State, maxnconn: int, openings: seq<Opening>)
    requires maxnconn >= 1 && Inv(w, maxnconn) && w.nlefttoread > 0
    ensures var o := Fill(w, maxnconn, openings);
            o.Running? ==> o.w.rset != {} && 1 <= CountActive(o.w.files) <= maxnconn && o.w.wset <= o.w.rset
  {
    FillKeepsInv(w, maxnconn, openings);
    var o := Fill(w, maxnconn, openings);
    if o.Running? {
      CountZero(o.w.files);
      var i :| 0 <= i < |o.w.files| && Active(o.w.files[i]);
      assert o.w.files[i] in o.w.files;
      assert o.w.files[i].fd in o.w.rset;
      assert forall fd :: fd in o.w.wset ==> fd in o.w.rset;
    }
  }

  // ----- what makes a file change phase -----

  /** How many connections are opened before Select: as many as the limit and the files allow. */
  function ToOpen(w: State, maxnconn: int): int {
    if maxnconn - w.nconn <= 0 || w.nlefttoconn <= 0 then 0
    else if maxnconn - w.nconn <= w.nlefttoconn then maxnconn - w.nconn else w.nlefttoconn
  }

  /** The first n answers are good: each opens a descriptor that is neither watched nor given twice. */
  predicate GoodOpenings(openings: seq<Opening>, n: int, used: set<int>) {
    && n <= |openings|
    && (forall k :: 0 <= k < n ==> openings[k].Opens? && openings[k].fd !in used)
    && (forall j, k :: 0 <= j < k < n ==> openings[j].Opens? && openings[k].Opens? && openings[j].fd != openings[k].fd)
  }

  /** The untouched files are opened from the front, each with the next answer. */
  ghost predicate OpenedAt(files: seq<Phase>, openings: seq<Opening>, n: int, now: seq<Phase>, i: nat)
    requires i < |files| && n <= |openings| && forall k :: 0 <= k < n ==> openings[k].Opens?
  {
    var k := CountUntouched(files[..i]);
    && i < |now|
    && now[i] == if !files[i].Untouched? || k >= n then files[i]
                 else if openings[k].connected then Reading(openings[k].fd) else Connecting(openings[k].fd)
  }

  lemma OpenedFirst(w: State, maxnconn: int, o: Opening)
    requires Inv(w, maxnconn) && w.nlefttoconn > 0 && o.Opens?
    ensures var i := FirstWith(w.files, IsUntouched);
            && i < |w.files| && CountUntouched(w.files[..i]) == 0
            && var v := Open(w, i, o);
            && v.files == w.files[i := if o.connected then Reading(o.fd) else Connecting(o.fd)]
            && v.rset == w.rset + {o.fd}
            && v.nconn == w.nconn + 1 && v.nlefttoconn == w.nlefttoconn - 1
            && forall j :: 0 <= j <= |w.files| ==>
                 CountUntouched(v.files[..j]) == CountUntouched(w.files[..j]) - if i < j then 1 else 0
  {
    SomethingToOpen(w, maxnconn);
    var i := FirstWith(w.files, IsUntouched);
    var v := Open(w, i, o);
    CountZero(w.files[..i]);
    forall j | 0 <= j <= |w.files|
      ensures CountUntouched(v.files[..j]) == CountUntouched(w.files[..j]) - if i < j then 1 else 0
    {
      if i < j {
        CountUpdate(w.files[..j], i, v.files[i]);
        assert v.files[..j] == w.files[..j][i := v.files[i]];
      } else {
        assert v.files[..j] == w.files[..j];
      }
    }
  }

  /** One more answer used: what it opened and what the others open are together what all of them open. */
  lemma OpenedNext(w: State, maxnconn: int, openings: seq<Opening>, n: int, now: seq<Phase>, j: nat)
    requires Inv(w, maxnconn) && w.nlefttoconn > 0 && 0 < n <= |openings| && j < |w.files|
    requires (forall k :: 0 <= k < n ==> openings[k].Opens?) && FirstWith(w.files, IsUntouched) < |w.files|
    requires var v := Open(w, FirstWith(w.files, IsUntouched), openings[0]);
             j < |v.files| && OpenedAt(v.files, openings[1..], n - 1, now, j)
    ensures OpenedAt(w.files, openings, n, now, j)
  {
    OpenedFirst(w, maxnconn, openings[0]);
    var i := FirstWith(w.files, IsUntouched);
    assert i < j && w.files[j].Untouched? ==> CountUntouched(w.files[..j]) > 0 by {
      CountZero(w.files[..j]);
      assert i < j ==> w.files[..j][i].Untouched?;
    }
  }

  /** The inner loop, exactly: it gets through when the answers it needs are good, and then the first untouched files
      have their connections, and only those. */
  lemma {:induction false} FillExactly(w: State, maxnconn: int, openings: seq<Opening>)
    requires Inv(w, maxnconn)
    ensures var o, n := Fill(w, maxnconn, openings), ToOpen(w, maxnconn);
            && (o.Running? <==> GoodOpenings(openings, n, w.rset))
            && (o.Running? ==> forall i :: 0 <= i < |w.files| ==> OpenedAt(w.files, openings, n, o.w.files, i))
    decreases |openings|
  {
    hide Open;
    hide OpenedAt;
    var n := ToOpen(w, maxnconn);
    if w.nconn < maxnconn && w.nlefttoconn > 0 {
      SomethingToOpen(w, maxnconn);
      if openings != [] && openings[0].Opens? && openings[0].fd !in w.rset {
        var v := Open(w, FirstWith(w.files, IsUntouched), openings[0]);
        OpenKeepsInv(w, maxnconn, openings[0]);
        OpenedFirst(w, maxnconn, openings[0]);
        assert ToOpen(v, maxnconn) == n - 1;
        FillExactly(v, maxnconn, openings[1..]);
        GoodNext(openings, n, w.rset);
        var o := Fill(v, maxnconn, openings[1..]);
        if o.Running? {
          forall i | 0 <= i < |w.files| ensures OpenedAt(w.files, openings, n, o.w.files, i) {
            OpenedNext(w, maxnconn, openings, n, o.w.files, i);
          }
        }
      }
    } else {
      forall i | 0 <= i < |w.files| ensures OpenedAt(w.files, openings, 0, w.files, i) {
        NothingOpened(w.files, openings, i);
      }
    }
  }

  lemma NothingOpened(files: seq<Phase>, openings: seq<Opening>, i: nat)
    requires i < |files|
    ensures OpenedAt(files, openings, 0, files, i)
  {
  }

  lemma GoodNext(openings: seq<Opening>, n: int, used: set<int>)
    requires openings != [] && openings[0].Opens? && openings[0].fd !in used && n > 0
    ensures GoodOpenings(openings, n, used) <==> GoodOpenings(openings[1..], n - 1, used + {openings[0].fd})
  {
    var rest := openings[1..];
    if GoodOpenings(rest, n - 1, used + {openings[0].fd}) {
      forall k | 0 <= k < n ensures openings[k].Opens? && openings[k].fd !in used {
        assert k > 0 ==> openings[k] == rest[k - 1];
      }
      forall j, k | 0 <= j < k < n
        ensures openings[j].Opens? && openings[k].Opens? && openings[j].fd != openings[k].fd
      {
        assert openings[k] == rest[k - 1] && (j > 0 ==> openings[j] == rest[j - 1]);
      }
    }
    if GoodOpenings(openings, n, used) {
      forall k | 0 <= k < n - 1 ensures rest[k].Opens? && rest[k].fd !in used + {openings[0].fd} {
        assert rest[k] == openings[k + 1];
      }
    }
  }

  /** A connection that became ready gets its command; a file being read is done at its end of file and not before;
      nothing else changes. */
  ghost predicate ServedAt(p: Phase, q: Phase, rs: set<int>, ws: set<int>, eof: bool) {
    match p
    case Connecting(fd) => q == if fd in rs || fd in ws then Reading(fd) else p
    case Reading(fd) => q == if fd in rs && eof then Done else p
    case _ => q == p
  }

  function MeetsEof(eof: seq<bool>, i: nat): bool { i < |eof| && eof[i] }

  lemma {:induction false} ServeExactly(w: State, i: nat, rs: set<int>, ws: set<int>, eof: seq<bool>)
    requires i <= |w.files|
    ensures var t := ServeFrom(w, i, rs, ws, eof);
            && |t.files| == |w.files|
            && (forall j :: 0 <= j < i ==> t.files[j] == w.files[j])
            && (forall j :: i <= j < |w.files| ==> ServedAt(w.files[j], t.files[j], rs, ws, MeetsEof(eof, j)))
    decreases |w.files| - i
  {
    if i < |w.files| {
      ServeExactly(Serve(w, i, rs, ws, MeetsEof(eof, i)), i + 1, rs, ws, eof);
    }
  }

  /** One whole turn that goes on, file by file: the connections that are opened, and what Select makes of all. */
  lemma TurnExactly(w: State, maxnconn: int, r: Round)
    requires Inv(w, maxnconn) && Turn(w, maxnconn, r).Running?
    ensures GoodOpenings(r.openings, ToOpen(w, maxnconn), w.rset)
    ensures var o, t := Fill(w, maxnconn, r.openings), Turn(w, maxnconn, r).w;
            && o.Running? && |o.w.files| == |t.files| == |w.files|
            && forall i :: 0 <= i < |w.files| ==>
                 && OpenedAt(w.files, r.openings, ToOpen(w, maxnconn), o.w.files, i)
                 && ServedAt(o.w.files[i], t.files[i], r.rs, r.ws, MeetsEof(r.eof, i))
  {
    hide OpenedAt;
    FillExactly(w, maxnconn, r.openings);
    FillKeepsInv(w, maxnconn, r.openings);
    var u := Fill(w, maxnconn, r.openings).w;
    ServeExactly(u, 0, r.rs * u.rset, r.ws * u.wset, r.eof);
    forall i | 0 <= i < |w.files|
      ensures ServedAt(u.files[i], Turn(w, maxnconn, r).w.files[i], r.rs, r.ws, MeetsEof(r.eof, i))
    {
      WatchedInPhase(u, maxnconn, i);
    }
  }

  lemma WatchedInPhase(u: State, maxnconn: int, i: nat)
    requires Inv(u, maxnconn) && i < |u.files|
    ensures u.files[i].Connecting? ==> u.files[i].fd in u.rset && u.files[i].fd in u.wset
    ensures u.files[i].Reading? ==> u.files[i].fd in u.rset
  {
    assert u.files[i] in u.files;
  }

  /** In round k, which is reached, file i is being read, reported readable, and at its end. */
  ghost predicate EndsIn(w: State, maxnconn: int, rounds: seq<Round>, k: nat, i: nat)
    requires k < |rounds|
  {
    var o := Run(w, maxnconn, rounds[..k]);
    && o.Running? && Turn(o.w, maxnconn, rounds[k]).Running?
    && var f := Fill(o.w, maxnconn, rounds[k].openings);
    && f.Running? && i < |f.w.files| && f.w.files[i].Reading? && f.w.files[i].fd in rounds[k].rs
    && MeetsEof(rounds[k].eof, i)
  }

  lemma EndsLater(w: State, maxnconn: int, rounds: seq<Round>, k: nat, i: nat)
    requires 0 < k < |rounds|
    ensures EndsIn(w, maxnconn, rounds, k, i) <==>
              var o := Turn(w, maxnconn, rounds[0]);
              o.Running? && EndsIn(o.w, maxnconn, rounds[1..], k - 1, i)
  {
    assert rounds[..k][0] == rounds[0] && rounds[..k][1..] == rounds[1..][..k - 1];
  }

  /** In one turn a file becomes done exactly by meeting its end of file while it is read. */
  lemma EndsNow(w: State, maxnconn: int, rounds: seq<Round>, i: nat)
    requires Inv(w, maxnconn) && rounds != [] && i < |w.files| && Turn(w, maxnconn, rounds[0]).Running?
    ensures var t := Turn(w, maxnconn, rounds[0]).w;
            |t.files| == |w.files| && (t.files[i].Done? <==> w.files[i].Done? || EndsIn(w, maxnconn, rounds, 0, i))
  {
    hide Fill;
    hide Turn;
    TurnExactly(w, maxnconn, rounds[0]);
    assert rounds[..0] == [] && Run(w, maxnconn, []) == Running(w);
  }

  /** A file is done exactly if it was from the start, or in some round met its end of file while it was read. */
  lemma {:induction false} DoneMeansRead(w: State, maxnconn: int, rounds: seq<Round>, i: nat)
    requires maxnconn >= 1 && Inv(w, maxnconn) && i < |w.files|
    ensures var o := Run(w, maxnconn, rounds);
            o.Running? || o.Finished? ==>
              && i < |o.w.files|
              && (o.w.files[i].Done? <==>
                    w.files[i].Done? || exists k :: 0 <= k < |rounds| && EndsIn(w, maxnconn, rounds, k, i))
    decreases |rounds|
  {
    hide Inv;
    hide Turn;
    hide EndsIn;
    if rounds != [] {
      TurnKeepsInv(w, maxnconn, rounds[0]);
      var o := Turn(w, maxnconn, rounds[0]);
      forall k | 0 < k < |rounds|
        ensures EndsIn(w, maxnconn, rounds, k, i) <==>
                  o.Running? && EndsIn(o.w, maxnconn, rounds[1..], k - 1, i)
      {
        EndsLater(w, maxnconn, rounds, k, i);
      }
      if o.Running? {
        EndsNow(w, maxnconn, rounds, i);
        DoneMeansRead(o.w, maxnconn, rounds[1..], i);
        if k :| 0 <= k < |rounds| - 1 && EndsIn(o.w, maxnconn, rounds[1..], k, i) {
          assert EndsIn(w, maxnconn, rounds, k + 1, i);
        }
      } else {
        FinishedAtOnce(w, maxnconn, rounds, i);
      }
    }
  }

  lemma FinishedAtOnce(w: State, maxnconn: int, rounds: seq<Round>, i: nat)
    requires Inv(w, maxnconn) && rounds != [] && !Turn(w, maxnconn, rounds[0]).Running?
    ensures Turn(w, maxnconn, rounds[0]).Finished? ==> Turn(w, maxnconn, rounds[0]).w == w
    ensures !EndsIn(w, maxnconn, rounds, 0, i)
  {
    hide Fill;
    hide Inv;
    FillKeepsInv(w, maxnconn, rounds[0].openings);
    assert rounds[..0] == [] && Run(w, maxnconn, []) == Running(w);
  }

  /** So when the program ends each file has met its end of file in some round while it was read. */
  lemma FinishedMeansRead(nfiles: nat, maxnconn: int, rounds: seq<Round>, i: nat)
    requires maxnconn >= 1 && i < nfiles && Run(Start(nfiles), maxnconn, rounds).Finished?
    ensures exists k :: 0 <= k < |rounds| && EndsIn(Start(nfiles), maxnconn, rounds, k, i)
  {
    hide EndsIn;
    StartInv(nfiles, maxnconn);
    DoneMeansRead(Start(nfiles), maxnconn, rounds, i);
    EveryRun(Start(nfiles), maxnconn, rounds);
  }

  // ----- the code -----

  const F_CONNECTING := 1
  const F_READING := 2
  const F_DONE := 4

  class Web {
    const flags: array<int>
    const fds: array<int>
    var nconn: int
    var nlefttoconn: int
    var nlefttoread: int
    var rset: set<int>
    var wset: set<int>
    var maxfd: int

    ghost predicate Valid()
      reads this, flags, fds
    {
      && flags != fds && flags.Length == fds.Length
      && forall i :: 0 <= i < flags.Length ==> flags[i] in {0, F_CONNECTING, F_READING, F_DONE}
    }

    ghost function PhaseOf(i: nat): Phase
      requires i < flags.Length == fds.Length
      reads this, flags, fds
    {
      if flags[i] == F_CONNECTING then Connecting(fds[i])
      else if flags[i] == F_READING then Reading(fds[i])
      else if flags[i] == F_DONE then Done
      else Untouched
    }

    ghost function Abs(): (w: State)
      requires Valid()
      reads this, flags, fds
      ensures |w.files| == flags.Length
    {
      State(seq(flags.Length, i requires 0 <= i < flags.Length && Valid() reads this, flags, fds => PhaseOf(i)),
            nconn, nlefttoconn, nlefttoread, rset, wset, maxfd)
    }

    constructor (nfiles: nat)
      ensures Valid() && Abs() == Start(nfiles) && fresh(flags) && fresh(fds)
    {
      flags := new int[nfiles](_ => 0);
      fds := new int[nfiles](_ => 0);
      nconn, nlefttoconn, nlefttoread := 0, nfiles, nfiles;
      rset, wset, maxfd := {}, {}, -1;
    }

    method WriteGetCommand(i: nat)
      requires Valid() && i < flags.Length
      modifies this, flags
      ensures Valid() && Abs() == WriteGetCmd(old(Abs()), i, fds[i])
    {
      flags[i] := F_READING;
      rset := rset + {fds[i]};
      if fds[i] > maxfd {
        maxfd := fds[i];
      }
    }

    method StartConnection(i: nat, fd: int, connected: bool)
      requires Valid() && i < flags.Length && flags[i] == 0
      modifies this, flags, fds
      ensures Valid() && Abs() == StartConnect(old(Abs()), i, fd, connected)
    {
      fds[i] := fd;
      if !connected {
        flags[i] := F_CONNECTING;
        rset := rset + {fd};
        wset := wset + {fd};
        if fd > maxfd {
          maxfd := fd;
        }
      } else {
        WriteGetCommand(i);
      }
    }

    /** The inner while loop: opens connections up to the limit. */
    method FillUp(maxnconn: int, openings: seq<Opening>) returns (exited: bool, nothingFound: bool)
      requires Valid()
      modifies this, flags, fds
      ensures Valid()
      ensures var o := Fill(old(Abs()), maxnconn, openings);
              && exited == o.Exited? && nothingFound == o.NothingFound?
              && (!exited && !nothingFound ==> o == Running(Abs()))
    {
      hide Fill;
      hide StartConnect;
      hide FirstWith;
      exited, nothingFound := false, false;
      var k := 0;
      assert openings[0..] == openings;
      while nconn < maxnconn && nlefttoconn > 0
        invariant 0 <= k <= |openings| && Valid()
        invariant !exited && !nothingFound
        invariant Fill(Abs(), maxnconn, openings[k..]) == Fill(old(Abs()), maxnconn, openings)
        decreases |openings| - k
      {
        var i := 0;
        while i < flags.Length && flags[i] != 0
          invariant 0 <= i <= flags.Length
          invariant forall j :: 0 <= j < i ==> flags[j] != 0
        {
          i := i + 1;
        }
        FirstWithUnique(Abs().files, IsUntouched, i);
        FillOnce(Abs(), maxnconn, openings, k);
        if i == flags.Length {
          return false, true;
        }
        if k == |openings| || openings[k].Fails? || openings[k].fd in rset {
          return true, false;
        }
        StartConnection(i, openings[k].fd, openings[k].connected);
        ghost var u := Abs();
        nconn := nconn + 1;
        nlefttoconn := nlefttoconn - 1;
        assert Abs().files == u.files;
        assert Abs() == u.(nconn := u.nconn + 1, nlefttoconn := u.nlefttoconn - 1);
        k := k + 1;
      }
      FillDone(Abs(), maxnconn, openings[k..]);
    }

    /** One file's share of the pass over the files. */
    method ServeFile(i: nat, rs: set<int>, ws: set<int>, eof: bool)
      requires Valid() && i < flags.Length
      modifies this, flags
      ensures Valid() && Abs() == Serve(old(Abs()), i, rs, ws, eof)
    {
      var f := flags[i];
      if f == 0 || f == F_DONE {
        return;
      }
      var fd := fds[i];
      if f == F_CONNECTING && (fd in rs || fd in ws) {
        wset := wset - {fd};
        WriteGetCommand(i);
      } else if f == F_READING && fd in rs {
        if eof {
          flags[i] := F_DONE;
          rset := rset - {fd};
          nconn := nconn - 1;
          nlefttoread := nlefttoread - 1;
        }
      }
    }

    method ServeAll(rs: set<int>, ws: set<int>, eof: seq<bool>)
      requires Valid()
      modifies this, flags
      ensures Valid() && Abs() == ServeFrom(old(Abs()), 0, rs, ws, eof)
    {
      var i := 0;
      while i < flags.Length
        invariant 0 <= i <= flags.Length && Valid()
        invariant ServeFrom(Abs(), i, rs, ws, eof) == ServeFrom(old(Abs()), 0, rs, ws, eof)
      {
        ServeFile(i, rs, ws, i < |eof| && eof[i]);
        i := i + 1;
      }
    }

    /** main's loop over any sequence of rounds; done when every file has been read. */
    method Fetch(maxnconn: int, rounds: seq<Round>) returns (done: bool, exited: bool, nothingFound: bool)
      requires Valid()
      modifies this, flags, fds
      ensures Valid()
      ensures var o := Run(old(Abs()), maxnconn, rounds);
              && exited == o.Exited? && nothingFound == o.NothingFound?
              && (done ==> nlefttoread <= 0 && (o == Finished(Abs()) || o == Running(Abs())))
              && (!done && !exited && !nothingFound ==> o == Running(Abs()))
    {
      hide Fill;
      hide ServeFrom;
      done, exited, nothingFound := false, false, false;
      var k := 0;
      while nlefttoread > 0
        invariant 0 <= k <= |rounds| && Valid() && !exited && !nothingFound && !done
        invariant Run(Abs(), maxnconn, rounds[k..]) == Run(old(Abs()), maxnconn, rounds)
        decreases |rounds| - k
      {
        if k == |rounds| {
          return;
        }
        assert rounds[k..][0] == rounds[k] && rounds[k..][1..] == rounds[k + 1..];
        exited, nothingFound := FillUp(maxnconn, rounds[k].openings);
        if exited || nothingFound {
          return;
        }
        var rs, ws := rounds[k].rs * rset, rounds[k].ws * wset;
        ServeAll(rs, ws, rounds[k].eof);
        k := k + 1;
      }
      done := true;
    }
  }

  lemma FillDone(w: State, maxnconn: int, openings: seq<Opening>)
    requires !(w.nconn < maxnconn && w.nlefttoconn > 0)
    ensures Fill(w, maxnconn, openings) == Running(w)
  {
  }

  lemma FillOnce(w: State, maxnconn: int, openings: seq<Opening>, k: nat)
    requires w.nconn < maxnconn && w.nlefttoconn > 0 && k <= |openings|
    ensures Fill(w, maxnconn, openings[k..]) ==
            var i := FirstWith(w.files, IsUntouched);
            if i == |w.files| then NothingFound
            else if k == |openings| || openings[k].Fails? || openings[k].fd in w.rset then Exited
            else Fill(Open(w, i, openings[k]), maxnconn, openings[k + 1..])
  {
    if k < |openings| {
      assert openings[k..][0] == openings[k] && openings[k..][1..] == openings[k + 1..];
    }
  }
}
