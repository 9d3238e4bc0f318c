/** The prethreaded server: one acceptor hands descriptors to N workers through a ring,
    a mutex and a condition variable. */
module ThreadPool {
  import opened Text

  const MAXNCLI := 32

  // ----- the ring -----

  /** full tells the one moment, before the overflow test, when iput == iget means full and not empty. */
  datatype Ring = Ring(clifd: seq<int>, iget: nat, iput: nat)
  {
    ghost predicate Ok() { |clifd| == MAXNCLI && iget < MAXNCLI && iput < MAXNCLI }

    function Length(full: bool): nat
      requires iget < MAXNCLI && iput < MAXNCLI
    {
      if full && iput == iget then MAXNCLI else (iput + MAXNCLI - iget) % MAXNCLI
    }

    function Contents(full: bool): (r: seq<int>)
      requires Ok()
      ensures |r| == Length(full)
    {
      seq(Length(full), k requires 0 <= k < Length(full) => clifd[(iget + k) % MAXNCLI])
    }

    function Put(fd: int): Ring
      requires Ok()
    {
      Ring(clifd[iput := fd], iget, if iput + 1 == MAXNCLI then 0 else iput + 1)
    }

    function Take(): Ring
      requires Ok()
    {
      this.(iget := if iget + 1 == MAXNCLI then 0 else iget + 1)
    }
  }

  lemma PutAppends(r: Ring, fd: int)
    requires r.Ok()
    ensures r.Put(fd).Ok() && r.Put(fd).Contents(true) == r.Contents(false) + [fd]
  {
    var t := r.Put(fd);
    assert t.Length(true) == r.Length(false) + 1;
    forall k | 0 <= k < r.Length(false) ensures t.Contents(true)[k] == r.Contents(false)[k] {
      assert (r.iget + k) % MAXNCLI != r.iput;
      assert t.Contents(true)[k] == t.clifd[(t.iget + k) % MAXNCLI];
    }
    assert (t.iget + r.Length(false)) % MAXNCLI == r.iput;
  }

  lemma TakeRemoves(r: Ring)
    requires r.Ok() && r.iget != r.iput
    ensures r.Take().Ok() && r.Contents(false) == [r.clifd[r.iget]] + r.Take().Contents(false)
  {
    var t := r.Take();
    assert t.Length(false) == r.Length(false) - 1;
    forall k | 0 <= k < t.Length(false) ensures t.Contents(false)[k] == r.Contents(false)[k + 1] {
      assert t.Contents(false)[k] == t.clifd[(t.iget + k) % MAXNCLI];
      assert r.Contents(false)[k + 1] == r.clifd[(r.iget + (k + 1)) % MAXNCLI];
      assert (t.iget + k) % MAXNCLI == (r.iget + (k + 1)) % MAXNCLI;
    }
    assert r.Contents(false)[0] == r.clifd[(r.iget + 0) % MAXNCLI];
  }

  // ----- the threads -----

  datatype Thread = Acceptor | Worker(i: nat)

  datatype AcceptorPc = Accepting | WantLock(fd: int) | Storing(fd: int) | Checking | Signaling | Unlocking

  datatype WorkerPc = Locking | Testing | Asleep | Relocking | Holding(fd: int) | Counting(fd: int) | Serving(fd: int)

  datatype Handout = Handout(worker: nat, fd: int)

  /** accepted records the descriptors stored, in order; handed who took which, in order. */
  datatype State = State(ring: Ring, mutex: Option<Thread>, apc: AcceptorPc, wpc: seq<WorkerPc>,
                         count: seq<nat>, accepted: seq<int>, handed: seq<Handout>)

  datatype Outcome = Running(s: State) | Exited

  /** What happens next: accept returns fd or the acceptor moves on (waking at least one sleeper, if there is
      one, when it signals); a worker moves on; a worker wakes up for no reason. */
  datatype Choice = AcceptorMoves(fd: int, woken: set<nat>) | WorkerMoves(i: nat) | Spurious(i: nat)

  predicate InCritical(pc: WorkerPc) { pc.Testing? || pc.Holding? }

  predicate AcceptorCritical(pc: AcceptorPc) { pc.Storing? || pc.Checking? || pc.Signaling? || pc.Unlocking? }

  function Sleepers(s: State): set<nat> { set i: nat | i < |s.wpc| && s.wpc[i].Asleep? }

  function Wake(wpc: seq<WorkerPc>, woken: set<nat>): (r: seq<WorkerPc>)
    ensures |r| == |wpc|
  {
    seq(|wpc|, i requires 0 <= i < |wpc| => if wpc[i].Asleep? && i in woken then Relocking else wpc[i])
  }

  function AcceptorStep(s: State, fd: int, woken: set<nat>): Outcome
    requires s.ring.Ok()
  {
    match s.apc
    case Accepting => Running(s.(apc := WantLock(fd)))
    case WantLock(c) => Running(if s.mutex.None? then s.(mutex := Some(Acceptor), apc := Storing(c)) else s)
    case Storing(c) => Running(s.(ring := s.ring.Put(c), accepted := s.accepted + [c], apc := Checking))
    case Checking => if s.ring.iput == s.ring.iget then Exited else Running(s.(apc := Signaling))
    case Signaling =>
      if Sleepers(s) != {} && Sleepers(s) * woken == {} then Running(s)
      else Running(s.(wpc := Wake(s.wpc, woken), apc := Unlocking))
    case Unlocking => Running(s.(mutex := None, apc := Accepting))
  }

  function WorkerStep(s: State, i: nat): State
    requires s.ring.Ok() && i < |s.wpc| == |s.count|
  {
    match s.wpc[i]
    case Locking => if s.mutex.None? then s.(mutex := Some(Worker(i)), wpc := s.wpc[i := Testing]) else s
    case Relocking => if s.mutex.None? then s.(mutex := Some(Worker(i)), wpc := s.wpc[i := Testing]) else s
    case Testing =>
      if s.ring.iget == s.ring.iput then s.(mutex := None, wpc := s.wpc[i := Asleep])
      else
        var fd := s.ring.clifd[s.ring.iget];
        s.(ring := s.ring.Take(), handed := s.handed + [Handout(i, fd)], wpc := s.wpc[i := Holding(fd)])
    case Asleep => s
    case Holding(fd) => s.(mutex := None, wpc := s.wpc[i := Counting(fd)])
    case Counting(fd) => s.(count := s.count[i := s.count[i] + 1], wpc := s.wpc[i := Serving(fd)])
    case Serving(fd) => s.(wpc := s.wpc[i := Locking])
  }

  function Step(s: State, c: Choice): Outcome
    requires s.ring.Ok() && |s.wpc| == |s.count|
  {
    match c
    case AcceptorMoves(fd, woken) => AcceptorStep(s, fd, woken)
    case WorkerMoves(i) => Running(if i < |s.wpc| then WorkerStep(s, i) else s)
    case Spurious(i) => Running(s.(wpc := Wake(s.wpc, {i})))
  }

  // ----- the invariant -----

  function Queue(s: State): seq<int>
    requires s.ring.Ok()
  {
    s.ring.Contents(s.apc.Checking?)
  }

  function Fds(h: seq<Handout>): seq<int> { seq(|h|, k requires 0 <= k < |h| => h[k].fd) }

  function TakenBy(h: seq<Handout>, i: nat): nat {
    if h == [] then 0 else TakenBy(Front(h), i) + if Last(h).worker == i then 1 else 0
  }

  /** The mutex is held by exactly the thread that is inside its critical section. */
  ghost predicate Exclusive(s: State) {
    && (s.mutex == Some(Acceptor) <==> AcceptorCritical(s.apc))
    && (s.mutex.Some? && s.mutex.value.Worker? ==> s.mutex.value.i < |s.wpc|)
    && forall i :: 0 <= i < |s.wpc| ==> (s.mutex == Some(Worker(i)) <==> InCritical(s.wpc[i]))
  }

  /** Work is never left to sleepers alone, except between the store and the signal about it. */
  ghost predicate NoLostWakeup(s: State)
    requires s.ring.Ok()
  {
    Queue(s) != [] && !s.apc.Checking? && !s.apc.Signaling? ==>
      exists i :: 0 <= i < |s.wpc| && !s.wpc[i].Asleep?
  }

  ghost predicate Counted(s: State) {
    && |s.count| == |s.wpc|
    && forall i :: 0 <= i < |s.wpc| ==>
         TakenBy(s.handed, i) == s.count[i] + if s.wpc[i].Holding? || s.wpc[i].Counting? then 1 else 0
  }

  ghost predicate Inv(s: State) {
    && s.ring.Ok() && |s.wpc| >= 1
    && (s.apc.Signaling? ==> s.ring.iput != s.ring.iget)
    && s.accepted == Fds(s.handed) + Queue(s)
    && Exclusive(s) && NoLostWakeup(s) && Counted(s)
  }

  function Start(clifd: seq<int>, workers: nat): State {
    State(Ring(clifd, 0, 0), None, Accepting, seq(workers, _ => Locking), seq(workers, _ => 0), [], [])
  }

  lemma StartInv(clifd: seq<int>, workers: nat)
    requires |clifd| == MAXNCLI && workers >= 1
    ensures Inv(Start(clifd, workers))
  {
  }

  lemma AcceptorKeepsInv(s: State, fd: int, woken: set<nat>)
    requires Inv(s)
    ensures AcceptorStep(s, fd, woken).Running? ==> Inv(AcceptorStep(s, fd, woken).s)
  {
    var o := AcceptorStep(s, fd, woken);
    match s.apc
    case Storing(c) =>
      PutAppends(s.ring, c);
      assert Fds(s.handed) + Queue(s) + [c] == Fds(s.handed) + Queue(o.s);
    case Signaling =>
      if o.s.apc.Unlocking? {
        if Sleepers(s) != {} {
          var i :| i in Sleepers(s) && i in woken;
          assert o.s.wpc[i] == Relocking;
        } else {
          assert 0 !in Sleepers(s);
          assert !o.s.wpc[0].Asleep?;
        }
      }
    case Unlocking =>
      assert forall i :: 0 <= i < |s.wpc| ==> !InCritical(s.wpc[i]);
    case _ =>
  }

  lemma WorkerTakes(s: State, i: nat)
    requires Inv(s) && i < |s.wpc| && s.wpc[i].Testing? && s.ring.iget != s.ring.iput
    ensures Inv(WorkerStep(s, i))
  {
    var t := WorkerStep(s, i);
    var h := Last(t.handed);
    assert s.mutex == Some(Worker(i)) && !s.apc.Checking?;
    TakeRemoves(s.ring);
    assert Front(t.handed) == s.handed;
    assert Fds(t.handed) == Fds(s.handed) + [h.fd];
    assert Fds(s.handed) + ([h.fd] + Queue(t)) == Fds(t.handed) + Queue(t);
    assert !t.wpc[i].Asleep?;
  }

  lemma WorkerKeepsInv(s: State, i: nat)
    requires Inv(s) && i < |s.wpc|
    ensures Inv(WorkerStep(s, i))
  {
    var t := WorkerStep(s, i);
    if s.wpc[i].Testing? && s.ring.iget != s.ring.iput {
      WorkerTakes(s, i);
    } else if s.wpc[i].Testing? {
      assert s.mutex == Some(Worker(i)) && !s.apc.Checking?;
      assert Queue(t) == [];
    } else if !s.wpc[i].Asleep? {
      assert Queue(t) == Queue(s);
      assert !t.wpc[i].Asleep?;
    }
  }

  lemma SpuriousKeepsInv(s: State, i: nat)
    requires Inv(s)
    ensures Inv(s.(wpc := Wake(s.wpc, {i})))
  {
    var t := s.(wpc := Wake(s.wpc, {i}));
    assert forall k :: 0 <= k < |s.wpc| ==> (s.wpc[k].Asleep? <== t.wpc[k].Asleep?);
  }

  lemma StepKeepsInv(s: State, c: Choice)
    requires Inv(s)
    ensures Step(s, c).Running? ==> Inv(Step(s, c).s)
  {
    match c
    case AcceptorMoves(fd, woken) => AcceptorKeepsInv(s, fd, woken);
    case WorkerMoves(i) =>
      if i < |s.wpc| {
        WorkerKeepsInv(s, i);
      }
    case Spurious(i) => SpuriousKeepsInv(s, i);
  }

  ghost function Run(s: State, choices: seq<Choice>): Outcome
    requires Inv(s)
    decreases |choices|
  {
    if choices == [] then Running(s)
    else match Step(s, choices[0])
      case Exited => Exited
      case Running(t) => StepKeepsInv(s, choices[0]); Run(t, choices[1..])
  }

  lemma {:induction false} RunKeepsInv(s: State, choices: seq<Choice>)
    requires Inv(s)
    ensures Run(s, choices).Running? ==> Inv(Run(s, choices).s)
    decreases |choices|
  {
    if choices != [] {
      StepKeepsInv(s, choices[0]);
      var o := Step(s, choices[0]);
      if o.Running? {
        RunKeepsInv(o.s, choices[1..]);
      }
    }
  }

  /** Every interleaving of the acceptor and N >= 1 workers, spurious wakeups included, that does not hit the
      overflow exit: descriptors are handed out in accept order, each in one handout; at most 31 wait unless the
      acceptor is just about to find the ring full; and when every worker sleeps, work waits exactly between the
      store and the signal about it. */
  lemma EveryInterleaving(clifd: seq<int>, workers: nat, choices: seq<Choice>)
    requires |clifd| == MAXNCLI && workers >= 1
    ensures Inv(Start(clifd, workers))
    ensures var o := Run(Start(clifd, workers), choices);
            o.Running? ==>
              && o.s.ring.Ok()
              && Fds(o.s.handed) <= o.s.accepted
              && o.s.accepted == Fds(o.s.handed) + Queue(o.s)
              && (!o.s.apc.Checking? ==> |Queue(o.s)| < MAXNCLI)
              && Exclusive(o.s) && Counted(o.s)
              && (AllAsleep(o.s) ==> (Queue(o.s) != [] <==> o.s.apc.Checking? || o.s.apc.Signaling?))
  {
    StartInv(clifd, workers);
    RunKeepsInv(Start(clifd, workers), choices);
    var o := Run(Start(clifd, workers), choices);
    if o.Running? && AllAsleep(o.s) {
      SleepingWithWork(o.s);
    }
  }

  ghost predicate AllAsleep(s: State) { forall i :: 0 <= i < |s.wpc| ==> s.wpc[i].Asleep? }

  /** When nobody is awake, there is work exactly between the store and the signal about it. */
  lemma SleepingWithWork(s: State)
    requires Inv(s) && AllAsleep(s)
    ensures Queue(s) != [] <==> s.apc.Checking? || s.apc.Signaling?
  {
    if s.apc.Signaling? {
      assert |Queue(s)| == s.ring.Length(false) > 0;
    }
  }

  /** That moment is real: the only worker goes to sleep on the empty ring, then a descriptor is stored. */
  lemma WorkCanMeetSleepersOnly(clifd: seq<int>, fd: int)
    requires |clifd| == MAXNCLI
    ensures Inv(Start(clifd, 1))
    ensures var o := Run(Start(clifd, 1), [WorkerMoves(0), WorkerMoves(0), AcceptorMoves(fd, {}),
                                           AcceptorMoves(fd, {}), AcceptorMoves(fd, {})]);
            o.Running? && Inv(o.s) && AllAsleep(o.s) && Queue(o.s) == [fd] && o.s.apc.Checking?
  {
    var s := Start(clifd, 1);
    StartInv(clifd, 1);
    var w, a := WorkerMoves(0), AcceptorMoves(fd, {});
    var t := WorkerStep(WorkerStep(s, 0), 0);
    RunStep(s, w, [w, a, a, a]);
    RunStep(WorkerStep(s, 0), w, [a, a, a]);
    RunStep(t, a, [a, a]);
    var u := AcceptorStep(t, fd, {}).s;
    RunStep(u, a, [a]);
    var v := AcceptorStep(u, fd, {}).s;
    RunStep(v, a, []);
    PutAppends(v.ring, fd);
  }

  lemma RunStep(s: State, c: Choice, rest: seq<Choice>)
    requires Inv(s) && Step(s, c).Running?
    ensures Inv(Step(s, c).s) && Run(s, [c] + rest) == Run(Step(s, c).s, rest)
  {
    StepKeepsInv(s, c);
    assert ([c] + rest)[1..] == rest;
  }

  /** The acceptor gives up exactly when it has just stored a 32nd descriptor. */
  lemma ExitExact(s: State, c: Choice)
    requires Inv(s)
    ensures Step(s, c).Exited? <==> c.AcceptorMoves? && s.apc.Checking? && |Queue(s)| == MAXNCLI
  {
    assert s.apc.Checking? ==> |Queue(s)| == s.ring.Length(true);
  }

  lemma AwakeWorkerActs(s: State, i: nat)
    requires Inv(s) && Queue(s) != [] && i < |s.wpc| && !s.wpc[i].Asleep? && !s.apc.Checking?
    requires s.mutex == None || s.mutex == Some(Worker(i))
    ensures WorkerStep(s, i) != s
  {
    var t := WorkerStep(s, i);
    match s.wpc[i]
    case Testing => assert |t.handed| != |s.handed|;
    case Counting(fd) => assert t.wpc[i] != s.wpc[i];
    case Serving(fd) => assert t.wpc[i] != s.wpc[i];
    case Locking => assert t.mutex != s.mutex;
    case Relocking => assert t.mutex != s.mutex;
    case Holding(fd) => assert t.mutex != s.mutex;
    case Asleep =>
  }

  /** No deadlock with work to do: while the queue is not empty some thread can change the state by its own step
      without a new connection. */
  lemma WorkMeansProgress(s: State)
    requires Inv(s) && Queue(s) != []
    ensures (exists i :: 0 <= i < |s.wpc| && WorkerStep(s, i) != s)
         || (!s.apc.Accepting? && AcceptorStep(s, 0, Sleepers(s)) != Running(s))
  {
    if !AcceptorCritical(s.apc) {
      var j :| 0 <= j < |s.wpc| && !s.wpc[j].Asleep?;
      AwakeWorkerActs(s, if s.mutex.Some? then s.mutex.value.i else j);
    }
  }

  // ----- from accept to service -----

  /** What accept has returned and the acceptor not yet stored. */
  function Carried(pc: AcceptorPc): seq<int> {
    match pc
    case WantLock(fd) => [fd]
    case Storing(fd) => [fd]
    case _ => []
  }

  /** What a worker has taken from the ring and not finished serving. */
  function TakenOn(pc: WorkerPc): seq<int> {
    match pc
    case Holding(fd) => [fd]
    case Counting(fd) => [fd]
    case Serving(fd) => [fd]
    case _ => []
  }

  function OfWorker(h: seq<Handout>, i: nat): seq<int> {
    if h == [] then [] else OfWorker(Front(h), i) + if Last(h).worker == i then [Last(h).fd] else []
  }

  /** The descriptor that this choice makes accept return, and the one that it makes worker i finish. */
  function AcceptedBy(s: State, c: Choice): seq<int> {
    if c.AcceptorMoves? && s.apc.Accepting? then [c.fd] else []
  }

  function FinishedBy(s: State, c: Choice, i: nat): seq<int>
    requires i < |s.wpc|
  {
    if c == WorkerMoves(i) && s.wpc[i].Serving? then [s.wpc[i].fd] else []
  }

  ghost function AllAccepted(s: State, choices: seq<Choice>): seq<int>
    requires Inv(s)
    decreases |choices|
  {
    if choices == [] then []
    else
      var o := Step(s, choices[0]);
      StepKeepsInv(s, choices[0]);
      AcceptedBy(s, choices[0]) + if o.Running? then AllAccepted(o.s, choices[1..]) else []
  }

  ghost function AllFinished(s: State, choices: seq<Choice>, i: nat): seq<int>
    requires Inv(s) && i < |s.wpc|
    decreases |choices|
  {
    if choices == [] then []
    else
      var o := Step(s, choices[0]);
      StepKeepsInv(s, choices[0]);
      SameThreads(s, choices[0]);
      FinishedBy(s, choices[0], i) + if o.Running? then AllFinished(o.s, choices[1..], i) else []
  }

  lemma SameThreads(s: State, c: Choice)
    requires Inv(s)
    ensures s.ring.Ok() && |s.wpc| == |s.count|
    ensures Step(s, c).Running? ==> |Step(s, c).s.wpc| == |s.wpc|
  {
  }

  lemma StepMovesOn(s: State, c: Choice)
    requires Inv(s) && Step(s, c).Running?
    ensures var t := Step(s, c).s; t.accepted + Carried(t.apc) == s.accepted + Carried(s.apc) + AcceptedBy(s, c)
  {
    SameThreads(s, c);
    hide Inv;
    var t := Step(s, c).s;
    assert s.accepted + [] == s.accepted && Carried(s.apc) + [] == Carried(s.apc);
    match c
    case AcceptorMoves(fd, _) =>
    case WorkerMoves(i) =>
    case Spurious(i) =>
  }

  lemma OfWorkerSnoc(h: seq<Handout>, d: Handout, i: nat)
    ensures OfWorker(h + [d], i) == OfWorker(h, i) + if d.worker == i then [d.fd] else []
  {
    assert Front(h + [d]) == h;
  }

  lemma StepServesOn(s: State, c: Choice, i: nat, served: seq<int>)
    requires Inv(s) && i < |s.wpc| && Step(s, c).Running?
    requires OfWorker(s.handed, i) == served + TakenOn(s.wpc[i])
    ensures var t := Step(s, c).s;
            |t.wpc| == |s.wpc| && OfWorker(t.handed, i) == served + FinishedBy(s, c, i) + TakenOn(t.wpc[i])
  {
    hide OfWorker;
    hide TakenBy;
    hide Fds;
    var t := Step(s, c).s;
    assert served + [] == served;
    if c.WorkerMoves? && c.i < |s.wpc| && t.handed != s.handed {
      OfWorkerSnoc(s.handed, Last(t.handed), i);
      assert t.handed == s.handed + [Last(t.handed)];
    }
  }

  /** Every interleaving: what accept has returned is stored or about to be, in that order; and what a worker has taken
      it has served, or is about to, each once and in that order. */
  lemma {:induction false} EveryDescriptorServed(s: State, choices: seq<Choice>, i: nat, served: seq<int>)
    requires Inv(s) && i < |s.wpc| && OfWorker(s.handed, i) == served + TakenOn(s.wpc[i])
    ensures var o := Run(s, choices);
            o.Running? ==>
              && |o.s.wpc| == |s.wpc|
              && o.s.accepted + Carried(o.s.apc) == s.accepted + Carried(s.apc) + AllAccepted(s, choices)
              && OfWorker(o.s.handed, i) == served + AllFinished(s, choices, i) + TakenOn(o.s.wpc[i])
    decreases |choices|
  {
    hide Inv;
    hide Step;
    hide Carried;
    hide TakenOn;
    hide OfWorker;
    if choices == [] {
      assert s.accepted + Carried(s.apc) + [] == s.accepted + Carried(s.apc) && served + [] == served;
    } else {
      var c := choices[0];
      StepKeepsInv(s, c);
      SameThreads(s, c);
      var o := Step(s, c);
      if o.Running? {
        StepMovesOn(s, c);
        StepServesOn(s, c, i, served);
        EveryDescriptorServed(o.s, choices[1..], i, served + FinishedBy(s, c, i));
        var more := AllFinished(o.s, choices[1..], i);
        assert served + FinishedBy(s, c, i) + more == served + (FinishedBy(s, c, i) + more);
        var rest := AllAccepted(o.s, choices[1..]);
        assert s.accepted + Carried(s.apc) + AcceptedBy(s, c) + rest
            == s.accepted + Carried(s.apc) + (AcceptedBy(s, c) + rest);
      }
    }
  }

  // ----- the code that touches the ring -----

  class ClientQueue {
    const clifd: array<int>
    var iget: nat
    var iput: nat

    ghost function Abs(): Ring
      reads this, clifd
    {
      Ring(clifd[..], iget, iput)
    }

    constructor ()
      ensures Abs().Ok() && Abs().Contents(false) == [] && fresh(clifd)
    {
      clifd := new int[MAXNCLI];
      iget, iput := 0, 0;
    }

    /** The acceptor's critical section; full means the program exits. */
    method Store(connfd: int) returns (full: bool)
      requires Abs().Ok()
      modifies this, clifd
      ensures Abs() == old(Abs()).Put(connfd)
      ensures Abs().Ok() && Abs().Contents(true) == old(Abs().Contents(false)) + [connfd]
      ensures full <==> |Abs().Contents(true)| == MAXNCLI
    {
      PutAppends(Abs(), connfd);
      clifd[iput] := connfd;
      iput := iput + 1;
      if iput == MAXNCLI {
        iput := 0;
      }
      full := iput == iget;
    }

    /** A worker's critical section after its wait. */
    method Fetch() returns (connfd: int)
      requires Abs().Ok() && iget != iput
      modifies this
      ensures Abs() == old(Abs()).Take()
      ensures Abs().Ok() && old(Abs().Contents(false)) == [connfd] + Abs().Contents(false)
    {
      TakeRemoves(Abs());
      connfd := clifd[iget];
      iget := iget + 1;
      if iget == MAXNCLI {
        iget := 0;
      }
    }
  }
}
