/** The signal-driven UDP echo server: a ring filled by the SIGIO handler, emptied by the main loop. */
module SigioRing {
  import opened Text

  const QSIZE := 8

  datatype Dgram = Dgram(data: seq<Byte>, from: nat)

  /** Where the main loop stands. SIGIO is blocked at Head and Blocked; waiting at Head unblocks it for the wait. */
  datatype Pc = Head | Sending | Sent | Bumped | Wrapped | Blocked

  /** arrived and echoed record all datagrams received by the handler and sent back by the main loop. */
  datatype State = State(dg: seq<Dgram>, iget: nat, iput: nat, nqueue: nat, pc: Pc,
                         arrived: seq<Dgram>, echoed: seq<Dgram>)

  datatype Outcome = Running(s: State) | Exited

  // ----- the steps -----

  predicate CanSignal(s: State) {
    match s.pc
    case Head => s.nqueue == 0
    case Blocked => false
    case _ => true
  }

  /** The handler: takes everything that waits on the socket, then finds nothing more.
      It gives up as soon as the queue counts QSIZE, even when nothing more waits. */
  function Handler(s: State, waiting: seq<Dgram>): Outcome
    requires |s.dg| == QSIZE && s.iput < QSIZE
    decreases |waiting|
  {
    if s.nqueue >= QSIZE then Exited
    else if waiting == [] then Running(s)
    else Handler(Receive(s, waiting[0]), waiting[1..])
  }

  function Receive(s: State, d: Dgram): (t: State)
    requires |s.dg| == QSIZE && s.iput < QSIZE
    ensures |t.dg| == QSIZE && t.iput < QSIZE
  {
    s.(dg := s.dg[s.iput := d], nqueue := s.nqueue + 1,
       iput := if s.iput + 1 >= QSIZE then 0 else s.iput + 1, arrived := s.arrived + [d])
  }

  predicate CanStep(s: State) { s.pc.Head? ==> s.nqueue > 0 }

  /** One step of the main loop; ++iget, its test, and nqueue-- are separate steps. */
  function MainStep(s: State): State
    requires |s.dg| == QSIZE && CanStep(s)
    requires s.pc.Sending? ==> s.iget < QSIZE
    requires s.pc.Blocked? ==> s.nqueue > 0
  {
    match s.pc
    case Head => s.(pc := Sending)
    case Sending => s.(echoed := s.echoed + [s.dg[s.iget]], pc := Sent)
    case Sent => s.(iget := s.iget + 1, pc := Bumped)
    case Bumped => s.(iget := if s.iget >= QSIZE then 0 else s.iget, pc := Wrapped)
    case Wrapped => s.(pc := Blocked)
    case Blocked => s.(nqueue := s.nqueue - 1, pc := Head)
  }

  /** What the scheduler may choose. A choice that is not possible in a state changes nothing. */
  datatype Choice = Main | Signal(waiting: seq<Dgram>)

  // ----- the invariant -----

  predicate AfterSend(pc: Pc) { !pc.Head? && !pc.Sending? }

  /** How many queued datagrams are still to be echoed, and the slot of the first of them. */
  function Unsent(s: State): int { if AfterSend(s.pc) then s.nqueue - 1 else s.nqueue }

  function First(s: State): nat {
    match s.pc
    case Sent => (s.iget + 1) % QSIZE
    case Bumped => s.iget % QSIZE
    case _ => s.iget
  }

  function Waiting(s: State): (r: seq<Dgram>)
    requires |s.dg| == QSIZE && Unsent(s) >= 0
    ensures |r| == Unsent(s)
  {
    seq(Unsent(s), k requires 0 <= k < Unsent(s) => s.dg[(First(s) + k) % QSIZE])
  }

  ghost predicate Inv(s: State) {
    && |s.dg| == QSIZE && s.iput < QSIZE && First(s) < QSIZE
    && (s.iget < QSIZE || (s.pc.Bumped? && s.iget == QSIZE))
    && s.nqueue < QSIZE && (!s.pc.Head? ==> s.nqueue >= 1)
    && (First(s) + Unsent(s)) % QSIZE == s.iput
    && s.arrived == s.echoed + Waiting(s)
  }

  function Start(dg: seq<Dgram>): State { State(dg, 0, 0, 0, Head, [], []) }

  lemma StartInv(dg: seq<Dgram>)
    requires |dg| == QSIZE
    ensures Inv(Start(dg))
  {
  }

  /** The slot the handler is about to fill holds no datagram still to be echoed. */
  lemma NeverOverwrites(s: State, k: nat)
    requires Inv(s) && k < Unsent(s)
    ensures (First(s) + k) % QSIZE != s.iput
  {
  }

  lemma NextPut(f: nat, u: nat, put: nat)
    requires (f + u) % QSIZE == put
    ensures (f + (u + 1)) % QSIZE == if put + 1 >= QSIZE then 0 else put + 1
  {
  }

  lemma ReceiveWaiting(s: State, d: Dgram)
    requires Inv(s)
    ensures First(Receive(s, d)) == First(s) && Unsent(Receive(s, d)) == Unsent(s) + 1
    ensures Waiting(Receive(s, d)) == Waiting(s) + [d]
  {
    var t := Receive(s, d);
    assert First(t) == First(s) && Unsent(t) == Unsent(s) + 1;
    hide Waiting;
    hide First;
    forall k | 0 <= k < Unsent(s) ensures Waiting(t)[k] == Waiting(s)[k] {
      NeverOverwrites(s, k);
      var slot := (First(s) + k) % QSIZE;
      WaitingAt(s, k, slot);
      WaitingAt(t, k, slot);
    }
    WaitingAt(t, Unsent(s), s.iput);
  }

  /** Receiving one datagram puts it last in the line and moves nothing else, wherever the main loop is. */
  lemma ReceiveAppends(s: State, d: Dgram)
    requires Inv(s)
    ensures var t := Receive(s, d);
            && First(t) == First(s) && Unsent(t) == Unsent(s) + 1
            && Waiting(t) == Waiting(s) + [d]
            && (s.nqueue + 1 < QSIZE ==> Inv(t))
  {
    hide Waiting;
    ReceiveWaiting(s, d);
    NextPut(First(s), Unsent(s), s.iput);
    assert s.echoed + Waiting(s) + [d] == s.echoed + (Waiting(s) + [d]);
  }

  /** One signal: the server gives up exactly when the queue would come to count QSIZE;
      otherwise all that waited is queued in order. */
  lemma {:induction false} HandlerExact(s: State, waiting: seq<Dgram>)
    requires Inv(s)
    ensures Handler(s, waiting).Exited? <==> s.nqueue + |waiting| >= QSIZE
    ensures Handler(s, waiting).Running? ==>
              var t := Handler(s, waiting).s;
              Inv(t) && t.arrived == s.arrived + waiting && t.echoed == s.echoed && t.pc == s.pc && t.iget == s.iget
              && t.nqueue == s.nqueue + |waiting|
    decreases |waiting|
  {
    if waiting == [] {
      assert s.arrived + waiting == s.arrived;
    } else {
      var t := Receive(s, waiting[0]);
      ReceiveAppends(s, waiting[0]);
      if t.nqueue < QSIZE {
        HandlerExact(t, waiting[1..]);
        assert s.arrived + [waiting[0]] + waiting[1..] == s.arrived + waiting;
      }
    }
  }

  lemma SendTakesFirst(s: State)
    requires Inv(s) && s.pc.Sending?
    ensures Waiting(s) == [s.dg[s.iget]] + Waiting(MainStep(s))
    ensures First(MainStep(s)) == (s.iget + 1) % QSIZE
  {
    hide Waiting;
    var t := MainStep(s);
    assert First(t) == (s.iget + 1) % QSIZE && t.dg == s.dg && Unsent(t) == Unsent(s) - 1;
    forall k | 0 <= k < Unsent(t) ensures Waiting(t)[k] == Waiting(s)[k + 1] {
      ModShift(s.iget, k);
      var slot := (s.iget + (k + 1)) % QSIZE;
      WaitingAt(s, k + 1, slot);
      WaitingAt(t, k, slot);
    }
    WaitingAt(s, 0, s.iget);
  }

  lemma WaitingAt(s: State, k: nat, slot: nat)
    requires |s.dg| == QSIZE && k < Unsent(s) && slot == (First(s) + k) % QSIZE
    ensures Waiting(s)[k] == s.dg[slot]
  {
  }

  lemma OtherStepsKeepLine(s: State)
    requires Inv(s) && CanStep(s) && !s.pc.Sending?
    ensures First(MainStep(s)) == First(s) && Unsent(MainStep(s)) == Unsent(s)
    ensures Waiting(MainStep(s)) == Waiting(s)
  {
    hide Waiting;
    var t := MainStep(s);
    assert First(t) == First(s) && Unsent(t) == Unsent(s) && t.dg == s.dg;
    hide First;
    hide MainStep;
    forall k | 0 <= k < Unsent(s) ensures Waiting(t)[k] == Waiting(s)[k] {
      var slot := (First(s) + k) % QSIZE;
      WaitingAt(s, k, slot);
      WaitingAt(t, k, slot);
    }
  }

  lemma MainStepKeepsInv(s: State)
    requires Inv(s) && CanStep(s)
    ensures Inv(MainStep(s)) && MainStep(s).arrived == s.arrived
  {
    hide Waiting;
    var t := MainStep(s);
    if s.pc.Sending? {
      SendTakesFirst(s);
      ModShift(s.iget, Unsent(t));
      assert t.echoed + Waiting(t) == s.echoed + Waiting(s);
    } else {
      OtherStepsKeepLine(s);
    }
  }

  lemma ModShift(a: nat, k: nat)
    ensures ((a + 1) % QSIZE + k) % QSIZE == (a + (k + 1)) % QSIZE
  {
  }

  ghost function Step(s: State, c: Choice): Outcome
    requires Inv(s)
  {
    match c
    case Main => if CanStep(s) then Running(MainStep(s)) else Running(s)
    case Signal(waiting) => if CanSignal(s) then Handler(s, waiting) else Running(s)
  }

  lemma StepKeepsInv(s: State, c: Choice)
    requires Inv(s)
    ensures Step(s, c).Running? ==> Inv(Step(s, c).s)
    ensures Step(s, c).Running? ==> s.arrived <= Step(s, c).s.arrived && s.echoed <= Step(s, c).s.echoed
  {
    match c
    case Main =>
      if CanStep(s) {
        MainStepKeepsInv(s);
      }
    case Signal(waiting) => HandlerExact(s, waiting);
  }

  ghost function Run(s: State, choices: seq<Choice>): Outcome
    requires Inv(s)
    decreases |choices|
  {
    if choices == [] then Running(s)
    else match Step(s, choices[0])
      case Exited => Exited
      case Running(t) => StepKeepsInv(s, choices[0]); Run(t, choices[1..])
  }

  /** Any interleaving of signals and main-loop steps keeps the ring consistent, and what has been echoed
      is the arrivals, each once, in order, up to some point. */
  lemma {:induction false} EveryInterleaving(s: State, choices: seq<Choice>)
    requires Inv(s)
    ensures var o := Run(s, choices);
            o.Running? ==> Inv(o.s) && o.s.echoed <= o.s.arrived && s.arrived <= o.s.arrived && s.echoed <= o.s.echoed
    decreases |choices|
  {
    if choices != [] {
      StepKeepsInv(s, choices[0]);
      var o := Step(s, choices[0]);
      if o.Running? {
        EveryInterleaving(o.s, choices[1..]);
      }
    }
  }

  /** One turn of the main loop left alone: exactly the first waiting datagram goes out. */
  function Turns(s: State, n: nat): State
    requires |s.dg| == QSIZE && s.pc.Head? && s.iget < QSIZE && n <= s.nqueue
    decreases n
  {
    if n == 0 then s
    else Turns(MainStep(MainStep(MainStep(MainStep(MainStep(MainStep(s)))))), n - 1)
  }

  /** With no more signals the main loop echoes everything that has arrived. */
  lemma {:induction false} QuietMeansEchoed(s: State)
    requires Inv(s) && s.pc.Head?
    ensures Turns(s, s.nqueue).echoed == s.arrived
    decreases s.nqueue
  {
    if s.nqueue > 0 {
      var a := MainStep(s); var b := MainStep(a); var c := MainStep(b);
      var d := MainStep(c); var e := MainStep(d); var f := MainStep(e);
      MainStepKeepsInv(s);
      MainStepKeepsInv(a);
      MainStepKeepsInv(b);
      MainStepKeepsInv(c);
      MainStepKeepsInv(d);
      MainStepKeepsInv(e);
      QuietMeansEchoed(f);
    }
  }

  // ----- the code -----

  class DgEcho {
    const dg: array<Dgram>
    var iget: nat
    var iput: nat
    var nqueue: nat
    ghost var pc: Pc
    ghost var arrived: seq<Dgram>
    ghost var echoed: seq<Dgram>

    ghost function Abs(): State
      reads this, dg
    {
      State(dg[..], iget, iput, nqueue, pc, arrived, echoed)
    }

    constructor (empty: Dgram)
      ensures dg.Length == QSIZE && Abs() == Start(dg[..]) && Inv(Abs()) && fresh(dg)
    {
      dg := new Dgram[QSIZE](_ => empty);
      iget, iput, nqueue := 0, 0, 0;
      pc, arrived, echoed := Head, [], [];
    }

    /** sig_io. */
    method SigIo(waiting: seq<Dgram>) returns (exited: bool)
      requires Inv(Abs()) && CanSignal(Abs())
      modifies this, dg
      ensures exited == Handler(old(Abs()), waiting).Exited?
      ensures !exited ==> Running(Abs()) == Handler(old(Abs()), waiting) && Inv(Abs())
    {
      ghost var start := Abs();
      HandlerExact(start, waiting);
      var nread := 0;
      while true
        invariant 0 <= nread <= |waiting| && dg.Length == QSIZE && iput < QSIZE
        invariant Handler(Abs(), waiting[nread..]) == Handler(start, waiting)
        decreases |waiting| - nread
      {
        if nqueue >= QSIZE {
          return true;
        }
        if nread == |waiting| {
          break;
        }
        ghost var s := Abs();
        assert waiting[nread..][0] == waiting[nread] && waiting[nread..][1..] == waiting[nread + 1..];
        dg[iput] := waiting[nread];
        arrived := arrived + [waiting[nread]];
        nread := nread + 1;
        nqueue := nqueue + 1;
        iput := iput + 1;
        if iput >= QSIZE {
          iput := 0;
        }
        assert Abs() == Receive(s, waiting[nread - 1]);
      }
      return false;
    }

    /** The end of sigsuspend's wait and the unblocking of SIGIO. */
    method Wake()
      requires Inv(Abs()) && pc.Head? && nqueue > 0
      modifies this
      ensures Abs() == MainStep(old(Abs())) && Inv(Abs())
    {
      MainStepKeepsInv(Abs());
      pc := Sending;
    }

    method SendHead() returns (d: Dgram)
      requires Inv(Abs()) && pc.Sending?
      modifies this
      ensures Abs() == MainStep(old(Abs())) && Inv(Abs())
      ensures echoed == old(echoed) + [d] && d == old(Waiting(Abs()))[0]
    {
      MainStepKeepsInv(Abs());
      d := dg[iget];
      echoed := echoed + [d];
      pc := Sent;
    }

    method BumpGet()
      requires Inv(Abs()) && pc.Sent?
      modifies this
      ensures Abs() == MainStep(old(Abs())) && Inv(Abs())
    {
      MainStepKeepsInv(Abs());
      iget := iget + 1;
      pc := Bumped;
    }

    method WrapGet()
      requires Inv(Abs()) && pc.Bumped?
      modifies this
      ensures Abs() == MainStep(old(Abs())) && Inv(Abs())
    {
      MainStepKeepsInv(Abs());
      if iget >= QSIZE {
        iget := 0;
      }
      pc := Wrapped;
    }

    method BlockSigio()
      requires Inv(Abs()) && pc.Wrapped?
      modifies this
      ensures Abs() == MainStep(old(Abs())) && Inv(Abs())
    {
      MainStepKeepsInv(Abs());
      pc := Blocked;
    }

    method Dequeue()
      requires Inv(Abs()) && pc.Blocked?
      modifies this
      ensures Abs() == MainStep(old(Abs())) && Inv(Abs())
    {
      MainStepKeepsInv(Abs());
      nqueue := nqueue - 1;
      pc := Head;
    }
  }
}
