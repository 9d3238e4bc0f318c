/** The preforked server whose parent accepts and passes each connection to an idle child over a pipe. */
module Prefork {
  import opened Text

  // ----- the parent's own table -----

  /** child_status, child_count, navail and nsel. Status 0 is available, 1 is busy. */
  datatype Table = Table(status: seq<int>, count: seq<nat>, navail: int, nsel: int)

  predicate Available(status: int) { status == 0 }

  function IdleCount(status: seq<int>): nat {
    if status == [] then 0 else IdleCount(Front(status)) + if Last(status) == 0 then 1 else 0
  }

  lemma {:induction false} IdleCountUpdate(status: seq<int>, i: nat, v: int)
    requires i < |status|
    ensures IdleCount(status[i := v]) ==
            IdleCount(status) + (if v == 0 then 1 else 0) - (if status[i] == 0 then 1 else 0)
  {
    var t := status[i := v];
    if i == |status| - 1 {
      assert Front(t) == Front(status);
    } else {
      IdleCountUpdate(Front(status), i, v);
      assert Front(t) == Front(status)[i := v];
    }
  }

  lemma {:induction false} IdleExists(status: seq<int>)
    ensures IdleCount(status) > 0 <==> FirstWith(status, Available) < |status|
  {
    if status != [] {
      IdleExists(Front(status));
      var k := FirstWith(Front(status), Available);
      if k < |status| - 1 {
        assert status[k] == 0;
      }
    }
  }

  function Busy(t: Table, i: nat): Table
    requires i < |t.status| == |t.count|
  {
    t.(status := t.status[i := 1], count := t.count[i := t.count[i] + 1], navail := t.navail - 1, nsel := t.nsel - 1)
  }

  function Freed(t: Table, i: nat): Table
    requires i < |t.status|
  {
    t.(status := t.status[i := 0], navail := t.navail + 1, nsel := t.nsel - 1)
  }

  // ----- the whole system -----

  type Conn = nat

  datatype ChildPc = Reading | Serving(conn: Conn) | Done(conn: Conn)

  /** down holds descriptors on their way to the child, up counts its ready bytes on their way back. */
  datatype Child = Child(pc: ChildPc, down: seq<Conn>, up: nat, finished: seq<Conn>)

  /** Selected and Scanning carry what is left to look at in rset. */
  datatype ParentPc = Top | Selected(listen: bool, pipes: set<nat>) | Scanning(i: nat, rest: set<nat>)

  datatype Dispatch = Dispatch(child: nat, conn: Conn)

  datatype State = State(t: Table, pc: ParentPc, kids: seq<Child>, backlog: seq<Conn>, arrived: seq<Conn>,
                         log: seq<Dispatch>)

  datatype Outcome = Running(s: State) | NoAvailableChildren | ChildTerminated

  /** A client connects; Select returns some of the ready descriptors; parent and children move. */
  datatype Choice =
    | Connect(conn: Conn)
    | Select(listen: bool, pipes: set<nat>)
    | ParentMoves
    | ChildMoves(i: nat)

  predicate Sized(s: State) { |s.t.status| == |s.t.count| == |s.kids| }

  /** What Select may report: listenfd only while somebody is available and a connection waits,
      a pipe only when a byte waits in it. */
  function ReadyPipes(s: State, pipes: set<nat>): set<nat> {
    set i | i in pipes && i < |s.kids| && s.kids[i].up > 0
  }

  function SelectStep(s: State, listen: bool, pipes: set<nat>): State {
    var l := listen && s.t.navail > 0 && s.backlog != [];
    var p := ReadyPipes(s, pipes);
    if !s.pc.Top? || (!l && p == {}) then s
    else s.(pc := Selected(l, p), t := s.t.(nsel := |p| + if l then 1 else 0))
  }

  function ListenStep(s: State): Outcome
    requires Sized(s) && s.pc.Selected? && s.backlog != []
  {
    var i := FirstWith(s.t.status, Available);
    if i == |s.t.status| then NoAvailableChildren
    else
      var c := s.backlog[0];
      var t := Busy(s.t, i);
      Running(s.(t := t, pc := if t.nsel == 0 then Top else Scanning(0, s.pc.pipes), backlog := s.backlog[1..],
                 kids := s.kids[i := s.kids[i].(down := s.kids[i].down + [c])], log := s.log + [Dispatch(i, c)]))
  }

  function ScanStep(s: State): Outcome
    requires Sized(s) && s.pc.Scanning?
  {
    var i, rest := s.pc.i, s.pc.rest;
    if i >= |s.kids| then Running(s.(pc := Top))
    else if i !in rest then Running(s.(pc := Scanning(i + 1, rest)))
    else if s.kids[i].up == 0 then ChildTerminated
    else
      var t := Freed(s.t, i);
      Running(s.(t := t, pc := if t.nsel == 0 then Top else Scanning(i + 1, rest - {i}),
                 kids := s.kids[i := s.kids[i].(up := s.kids[i].up - 1)]))
  }

  function ParentStep(s: State): Outcome
    requires Sized(s) && (s.pc.Selected? && s.pc.listen ==> s.backlog != [])
  {
    match s.pc
    case Top => Running(s)
    case Selected(listen, pipes) => if listen then ListenStep(s) else Running(s.(pc := Scanning(0, pipes)))
    case Scanning(_, _) => ScanStep(s)
  }

  function ChildStep(k: Child): Child {
    match k.pc
    case Reading => if k.down == [] then k else k.(pc := Serving(k.down[0]), down := k.down[1..])
    case Serving(c) => k.(pc := Done(c), finished := k.finished + [c])
    case Done(c) => k.(pc := Reading, up := k.up + 1)
  }

  // ----- the invariant -----

  /** What a child has in hand: descriptors in flight, the connection it serves, ready bytes in flight. */
  function InHand(k: Child): nat { |k.down| + (if k.pc.Reading? then 0 else 1) + k.up }

  function Unfinished(k: Child): seq<Conn> { (if k.pc.Serving? then [k.pc.conn] else []) + k.down }

  function Given(log: seq<Dispatch>, i: nat): seq<Conn> {
    if log == [] then [] else Given(Front(log), i) + if Last(log).child == i then [Last(log).conn] else []
  }

  function Conns(log: seq<Dispatch>): seq<Conn> { seq(|log|, k requires 0 <= k < |log| => log[k].conn) }

  ghost predicate ChildOk(s: State, i: nat)
    requires Sized(s) && i < |s.kids|
  {
    && (s.t.status[i] == 0 || s.t.status[i] == 1)
    && InHand(s.kids[i]) == s.t.status[i]
    && Given(s.log, i) == s.kids[i].finished + Unfinished(s.kids[i])
    && s.t.count[i] == |Given(s.log, i)|
  }

  /** What is left of rset is still ready, and nsel counts exactly that. */
  ghost predicate SelectionOk(s: State)
    requires Sized(s)
  {
    match s.pc
    case Top => true
    case Selected(listen, pipes) =>
      && s.t.nsel == |pipes| + (if listen then 1 else 0) > 0
      && (listen ==> s.t.navail > 0 && s.backlog != [])
      && forall j :: j in pipes ==> j < |s.kids| && s.kids[j].up > 0
    case Scanning(i, rest) =>
      && s.t.nsel == |rest| > 0
      && forall j :: j in rest ==> i <= j < |s.kids| && s.kids[j].up > 0
  }

  ghost predicate Inv(s: State) {
    && Sized(s)
    && s.t.navail == IdleCount(s.t.status)
    && (forall i :: 0 <= i < |s.kids| ==> ChildOk(s, i))
    && SelectionOk(s)
    && s.arrived == Conns(s.log) + s.backlog
    && forall k :: 0 <= k < |s.log| ==> s.log[k].child < |s.kids|
  }

  function Start(n: nat): State {
    State(Table(seq(n, _ => 0), seq(n, _ => 0), n, 0), Top, seq(n, _ => Child(Reading, [], 0, [])), [], [], [])
  }

  lemma {:induction false} AllIdle(n: nat)
    ensures IdleCount(seq(n, _ => 0)) == n
  {
    if n > 0 {
      AllIdle(n - 1);
      var z: seq<int> := seq(n, _ => 0);
      assert Front(z) == seq(n - 1, _ => 0);
    }
  }

  lemma StartInv(n: nat)
    ensures Inv(Start(n))
  {
    AllIdle(n);
  }

  lemma GivenSnoc(log: seq<Dispatch>, d: Dispatch, i: nat)
    ensures Given(log + [d], i) == Given(log, i) + if d.child == i then [d.conn] else []
  {
    assert Front(log + [d]) == log;
  }

  lemma DispatchKeepsChildren(s: State, u: State, i: nat)
    requires Inv(s) && s.pc.Selected? && s.pc.listen && ListenStep(s) == Running(u) && i < |s.kids|
    ensures ChildOk(u, i)
  {
    GivenSnoc(s.log, Last(u.log), i);
    assert u.log == s.log + [Last(u.log)];
    assert ChildOk(s, i);
    var k := FirstWith(s.t.status, Available);
    if i == k {
      assert Unfinished(u.kids[i]) == Unfinished(s.kids[i]) + [s.backlog[0]];
    }
  }

  /** The connection goes to a child that holds nothing at all, and there always is one. */
  lemma ListenKeepsInv(s: State)
    requires Inv(s) && s.pc.Selected? && s.pc.listen
    ensures var o := ListenStep(s);
            o.Running? && Inv(o.s) && InHand(s.kids[Last(o.s.log).child]) == 0
  {
    IdleExists(s.t.status);
    var i := FirstWith(s.t.status, Available);
    IdleCountUpdate(s.t.status, i, 1);
    assert ChildOk(s, i);
    var u := ListenStep(s).s;
    forall j | 0 <= j < |s.kids| ensures ChildOk(u, j) {
      DispatchKeepsChildren(s, u, j);
    }
    assert Conns(u.log) == Conns(s.log) + [s.backlog[0]];
    assert Conns(s.log) + s.backlog == Conns(s.log) + [s.backlog[0]] + s.backlog[1..];
  }

  lemma ScanKeepsInv(s: State)
    requires Inv(s) && s.pc.Scanning?
    ensures ScanStep(s).Running? && Inv(ScanStep(s).s)
  {
    var i, rest := s.pc.i, s.pc.rest;
    var u := ScanStep(s).s;
    if i < |s.kids| && i in rest {
      assert ChildOk(s, i);
      IdleCountUpdate(s.t.status, i, 0);
      forall j | 0 <= j < |s.kids| ensures ChildOk(u, j) {
        assert ChildOk(s, j);
      }
    } else if i < |s.kids| {
      assert forall j :: 0 <= j < |s.kids| ==> ChildOk(s, j) ==> ChildOk(u, j);
    }
  }

  lemma ParentKeepsInv(s: State)
    requires Inv(s)
    ensures ParentStep(s).Running? && Inv(ParentStep(s).s)
  {
    match s.pc
    case Top =>
    case Selected(listen, pipes) =>
      if listen {
        ListenKeepsInv(s);
      } else {
        var u := ParentStep(s).s;
        assert forall j :: 0 <= j < |s.kids| ==> ChildOk(s, j) ==> ChildOk(u, j);
      }
    case Scanning(_, _) => ScanKeepsInv(s);
  }

  lemma ChildKeepsInv(s: State, i: nat)
    requires Inv(s) && i < |s.kids|
    ensures Inv(s.(kids := s.kids[i := ChildStep(s.kids[i])]))
  {
    var k := s.kids[i];
    var u := s.(kids := s.kids[i := ChildStep(k)]);
    assert ChildOk(s, i);
    assert k.finished + Unfinished(k) == ChildStep(k).finished + Unfinished(ChildStep(k)) by {
      match k.pc
      case Reading =>
        if k.down != [] {
          assert k.down == [k.down[0]] + k.down[1..];
        }
      case Serving(c) => assert k.finished + ([c] + k.down) == k.finished + [c] + ([] + k.down);
      case Done(_) =>
    }
    forall j | 0 <= j < |s.kids| ensures ChildOk(u, j) {
      assert ChildOk(s, j);
    }
    assert forall j :: 0 <= j < |s.kids| ==> u.kids[j].up >= s.kids[j].up;
  }

  function Step(s: State, c: Choice): Outcome
    requires Sized(s) && (s.pc.Selected? && s.pc.listen ==> s.backlog != [])
  {
    match c
    case Connect(conn) => Running(s.(backlog := s.backlog + [conn], arrived := s.arrived + [conn]))
    case Select(listen, pipes) => Running(SelectStep(s, listen, pipes))
    case ParentMoves => ParentStep(s)
    case ChildMoves(i) =>
      Running(if i < |s.kids| then s.(kids := s.kids[i := ChildStep(s.kids[i])]) else s)
  }

  lemma StepKeepsInv(s: State, c: Choice)
    requires Inv(s)
    ensures Step(s, c).Running? && Inv(Step(s, c).s)
  {
    match c
    case Connect(conn) =>
      var u := Step(s, c).s;
      assert Conns(s.log) + (s.backlog + [conn]) == s.arrived + [conn];
      assert forall j :: 0 <= j < |s.kids| ==> ChildOk(s, j) ==> ChildOk(u, j);
    case Select(listen, pipes) =>
      var u := Step(s, c).s;
      assert ReadyPipes(s, pipes) != {} ==> |ReadyPipes(s, pipes)| > 0;
      assert forall j :: 0 <= j < |s.kids| ==> ChildOk(s, j) ==> ChildOk(u, j);
    case ParentMoves => ParentKeepsInv(s);
    case ChildMoves(i) =>
      if i < |s.kids| {
        ChildKeepsInv(s, i);
      }
  }

  ghost function Run(s: State, choices: seq<Choice>): Outcome
    requires Inv(s)
    decreases |choices|
  {
    if choices == [] then Running(s)
    else StepKeepsInv(s, choices[0]); Run(Step(s, choices[0]).s, choices[1..])
  }

  lemma {:induction false} RunKeepsInv(s: State, choices: seq<Choice>)
    requires Inv(s)
    ensures Run(s, choices).Running? && Inv(Run(s, choices).s)
    decreases |choices|
  {
    if choices != [] {
      StepKeepsInv(s, choices[0]);
      RunKeepsInv(Step(s, choices[0]).s, choices[1..]);
    }
  }

  /** Every run of the parent and its n children: "no available children" and a blocked or empty read of a
      reported pipe never happen; navail counts the available children; an available child is idle with both
      pipe directions empty; a busy one has exactly one of a descriptor in flight, a connection in service,
      or a ready byte in flight; connections are taken in arrival order, each by exactly one child. */
  lemma EveryRun(n: nat, choices: seq<Choice>)
    ensures Inv(Start(n))
    ensures var o := Run(Start(n), choices);
            && o.Running? && Sized(o.s)
            && o.s.t.navail == IdleCount(o.s.t.status)
            && (forall i :: 0 <= i < |o.s.kids| ==> InHand(o.s.kids[i]) == o.s.t.status[i] <= 1)
            && (forall i :: 0 <= i < |o.s.kids| ==>
                  Given(o.s.log, i) == o.s.kids[i].finished + Unfinished(o.s.kids[i])
                  && o.s.t.count[i] == |Given(o.s.log, i)|)
            && Conns(o.s.log) <= o.s.arrived
  {
    StartInv(n);
    RunKeepsInv(Start(n), choices);
    var s := Run(Start(n), choices).s;
    forall i | 0 <= i < |s.kids|
      ensures InHand(s.kids[i]) == s.t.status[i] <= 1
      ensures Given(s.log, i) == s.kids[i].finished + Unfinished(s.kids[i]) && s.t.count[i] == |Given(s.log, i)|
    {
      assert ChildOk(s, i);
    }
  }

  /** The early exits never skip a child: the scan is left for the next Select only when nothing of rset remains. */
  lemma ScanLeavesNothing(s: State)
    requires Inv(s) && s.pc.Scanning? && ScanStep(s).s.pc.Top?
    ensures s.pc.i < |s.kids| && s.pc.rest == {s.pc.i} && s.t.nsel == 1
  {
    var i, rest := s.pc.i, s.pc.rest;
    if i < |s.kids| {
      assert |rest - {i}| == |rest| - 1;
      assert rest - {i} == {};
    }
  }

  // ----- one pass of the parent -----

  /** The table after a pass that gave a connection to taker and found those pipes readable. */
  function PassTable(t: Table, taker: Option<nat>, pipes: set<nat>): Table
    requires |t.status| == |t.count|
  {
    Table(seq(|t.status|, i requires 0 <= i < |t.status| =>
                if i in pipes then 0 else if taker == Some(i) then 1 else t.status[i]),
          seq(|t.count|, i requires 0 <= i < |t.count| => t.count[i] + if taker == Some(i) then 1 else 0),
          t.navail + |pipes| - (if taker.Some? then 1 else 0), 0)
  }

  function Taker(t: Table, listen: bool): Option<nat> {
    if listen then Some(FirstWith(t.status, Available)) else None
  }

  /** What the pass under way will have made of the table. */
  function Ending(s: State): Table
    requires Sized(s)
  {
    match s.pc
    case Top => s.t
    case Selected(listen, pipes) => PassTable(s.t, Taker(s.t, listen), pipes)
    case Scanning(_, rest) => PassTable(s.t, None, rest)
  }

  lemma ScanEnding(s: State)
    requires Inv(s) && s.pc.Scanning?
    ensures ScanStep(s).Running? && Sized(ScanStep(s).s) && Ending(ScanStep(s).s) == Ending(s)
  {
    var i, rest := s.pc.i, s.pc.rest;
    ScanKeepsInv(s);
    if i < |s.kids| && i in rest {
      assert |rest - {i}| == |rest| - 1;
      assert s.t.nsel == 1 ==> rest - {i} == {};
    }
  }

  lemma ListenEnding(s: State)
    requires Inv(s) && s.pc.Selected? && s.pc.listen
    ensures ListenStep(s).Running? && Sized(ListenStep(s).s) && Ending(ListenStep(s).s) == Ending(s)
  {
    IdleExists(s.t.status);
    var i := FirstWith(s.t.status, Available);
    assert ChildOk(s, i) && s.kids[i].up == 0 && i !in s.pc.pipes;
    assert s.t.nsel == 1 ==> s.pc.pipes == {};
  }

  /** Nothing that happens during a pass changes what it comes to. */
  lemma PassGoesOn(s: State, c: Choice)
    requires Inv(s) && !s.pc.Top?
    ensures Step(s, c).Running? && Sized(Step(s, c).s) && Ending(Step(s, c).s) == Ending(s)
  {
    StepKeepsInv(s, c);
    if c.ParentMoves? {
      if s.pc.Scanning? {
        ScanEnding(s);
      } else if s.pc.listen {
        ListenEnding(s);
      }
    }
  }

  /** The parent does not return to Select before the last of these choices. */
  ghost predicate WithinPass(s: State, choices: seq<Choice>)
    requires Inv(s)
    decreases |choices|
  {
    choices == [] || (!s.pc.Top? && (StepKeepsInv(s, choices[0]); WithinPass(Step(s, choices[0]).s, choices[1..])))
  }

  /** However children and new connections come in between, a pass ends with the table that Parent.Pass computes. */
  lemma {:induction false} PassInAnyRun(s: State, choices: seq<Choice>)
    requires Inv(s) && WithinPass(s, choices)
    ensures var o := Run(s, choices);
            o.Running? && Sized(o.s) && Ending(o.s) == Ending(s) && (o.s.pc.Top? ==> o.s.t == Ending(s))
    decreases |choices|
  {
    if choices != [] {
      StepKeepsInv(s, choices[0]);
      PassGoesOn(s, choices[0]);
      PassInAnyRun(Step(s, choices[0]).s, choices[1..]);
    }
  }

  // ----- progress -----

  /** Steps a child's connections have still to go through, the parent's reading of the ready byte included. */
  function ChildWork(k: Child): nat {
    4 * |k.down| + (match k.pc case Reading => 0 case Serving(_) => 3 case Done(_) => 2) + k.up
  }

  function KidsWork(kids: seq<Child>): nat {
    if kids == [] then 0 else KidsWork(Front(kids)) + ChildWork(Last(kids))
  }

  function Work(s: State): nat { 5 * |s.backlog| + KidsWork(s.kids) }

  function Rank(s: State): int {
    match s.pc
    case Top => |s.kids| + 3
    case Selected(_, _) => |s.kids| + 2
    case Scanning(i, _) => |s.kids| - i
  }

  /** Bounds the steps that can still be taken if nobody else connects. */
  function Effort(s: State): int { Work(s) * (|s.kids| + 4) + Rank(s) }

  lemma {:induction false} KidsWorkUpdate(kids: seq<Child>, i: nat, k: Child)
    requires i < |kids|
    ensures KidsWork(kids[i := k]) == KidsWork(kids) - ChildWork(kids[i]) + ChildWork(k)
  {
    var t := kids[i := k];
    if i == |kids| - 1 {
      assert Front(t) == Front(kids);
    } else {
      KidsWorkUpdate(Front(kids), i, k);
      assert Front(t) == Front(kids)[i := k];
    }
  }

  lemma LowerEffort(work: nat, less: nat, n: nat, rank: int, other: int)
    requires 0 <= rank && other <= n + 3
    requires less < work || (less == work && other < rank)
    ensures less * (n + 4) + other < work * (n + 4) + rank
  {
    if less < work {
      assert (less + 1) * (n + 4) <= work * (n + 4);
    }
  }

  ghost predicate GetsOn(s: State, u: State) {
    && |u.kids| == |s.kids| && 0 <= Rank(s) && Rank(u) <= |s.kids| + 3
    && (Work(u) < Work(s) || (Work(u) == Work(s) && Rank(u) < Rank(s)))
  }

  lemma ListenGetsOn(s: State)
    requires Inv(s) && s.pc.Selected? && s.pc.listen
    ensures ListenStep(s).Running? && GetsOn(s, ListenStep(s).s)
  {
    ListenKeepsInv(s);
    var i := FirstWith(s.t.status, Available);
    var k := s.kids[i];
    KidsWorkUpdate(s.kids, i, k.(down := k.down + [s.backlog[0]]));
  }

  lemma ScanGetsOn(s: State)
    requires Inv(s) && s.pc.Scanning?
    ensures ScanStep(s).Running? && GetsOn(s, ScanStep(s).s)
  {
    ScanKeepsInv(s);
    ScanInRange(s);
    var i := s.pc.i;
    if i in s.pc.rest {
      KidsWorkUpdate(s.kids, i, s.kids[i].(up := s.kids[i].up - 1));
    }
  }

  lemma ScanInRange(s: State)
    requires Inv(s) && s.pc.Scanning?
    ensures s.pc.i < |s.kids|
  {
    var j :| j in s.pc.rest;
  }

  lemma StepGetsOn(s: State, c: Choice)
    requires Inv(s) && !c.Connect? && Step(s, c) != Running(s)
    ensures Step(s, c).Running? && GetsOn(s, Step(s, c).s)
  {
    if s.pc.Scanning? {
      ScanInRange(s);
    }
    match c
    case Select(_, _) =>
    case ParentMoves =>
      if s.pc.Scanning? {
        ScanGetsOn(s);
      } else if s.pc.listen {
        ListenGetsOn(s);
      }
    case ChildMoves(i) => KidsWorkUpdate(s.kids, i, ChildStep(s.kids[i]));
  }

  ghost predicate EachChanges(s: State, choices: seq<Choice>)
    requires Inv(s)
    decreases |choices|
  {
    choices == []
    || (!choices[0].Connect? && Step(s, choices[0]) != Running(s)
        && (StepKeepsInv(s, choices[0]); EachChanges(Step(s, choices[0]).s, choices[1..])))
  }

  /** Without new connections only so many steps can be taken, whoever is scheduled. */
  lemma {:induction false} StepsRunOut(s: State, choices: seq<Choice>)
    requires Inv(s) && EachChanges(s, choices)
    ensures |choices| <= Effort(s)
    decreases |choices|
  {
    if choices == [] {
      LowerEffort(Work(s), 0, |s.kids|, Rank(s), -1);
    } else {
      StepKeepsInv(s, choices[0]);
      StepGetsOn(s, choices[0]);
      var u := Step(s, choices[0]).s;
      LowerEffort(Work(s), Work(u), |s.kids|, Rank(s), Rank(u));
      StepsRunOut(u, choices[1..]);
    }
  }

  predicate CanMove(k: Child) { !k.pc.Reading? || k.down != [] }

  /** A choice that changes the state while something is left to do. */
  function NextChoice(s: State): Choice
    requires Sized(s)
  {
    var moving := FirstWith(s.kids, CanMove);
    if !s.pc.Top? then ParentMoves
    else if moving < |s.kids| then ChildMoves(moving)
    else Select(true, set i | 0 <= i < |s.kids| && s.kids[i].up > 0)
  }

  /** Something can move exactly while a connection waits or a child has one in hand; so when all has come to rest
      every connection has been taken and finished, and every child is available. */
  lemma RestMeansServed(s: State)
    requires Inv(s) && s.kids != []
    ensures (forall c: Choice :: !c.Connect? ==> Step(s, c) == Running(s)) <==>
              s.backlog == [] && forall i :: 0 <= i < |s.kids| ==> InHand(s.kids[i]) == 0
    ensures (forall c: Choice :: !c.Connect? ==> Step(s, c) == Running(s)) ==>
              && Conns(s.log) == s.arrived && s.t.navail == |s.kids|
              && forall i :: 0 <= i < |s.kids| ==> Given(s.log, i) == s.kids[i].finished
  {
    if s.backlog == [] && forall i :: 0 <= i < |s.kids| ==> InHand(s.kids[i]) == 0 {
      forall c: Choice | !c.Connect? ensures Step(s, c) == Running(s) {
        NothingMoves(s, c);
      }
      AllServed(s);
    } else {
      SomethingMoves(s);
    }
  }

  lemma PassHasReason(s: State)
    requires Inv(s) && !s.pc.Top?
    ensures s.backlog != [] || exists i :: 0 <= i < |s.kids| && InHand(s.kids[i]) > 0
  {
    var ready := if s.pc.Selected? then s.pc.pipes else s.pc.rest;
    if ready != {} {
      var j :| j in ready;
      assert InHand(s.kids[j]) > 0;
    }
  }

  lemma NothingMoves(s: State, c: Choice)
    requires Inv(s) && s.backlog == [] && !c.Connect?
    requires forall i :: 0 <= i < |s.kids| ==> InHand(s.kids[i]) == 0
    ensures Step(s, c) == Running(s)
  {
    if !s.pc.Top? {
      PassHasReason(s);
    }
    if c.ChildMoves? && c.i < |s.kids| {
      assert s.kids[c.i].pc.Reading? && s.kids[c.i].down == [];
      assert s.kids[c.i := s.kids[c.i]] == s.kids;
    }
  }

  lemma SomethingMoves(s: State)
    requires Inv(s) && s.kids != []
    requires s.backlog != [] || exists i :: 0 <= i < |s.kids| && InHand(s.kids[i]) > 0
    ensures !NextChoice(s).Connect? && Step(s, NextChoice(s)) != Running(s)
  {
    var c, moving := NextChoice(s), FirstWith(s.kids, CanMove);
    if !s.pc.Top? {
      ParentKeepsInv(s);
    } else if moving < |s.kids| {
      assert ChildStep(s.kids[moving]).pc != s.kids[moving].pc;
    } else if exists i :: 0 <= i < |s.kids| && InHand(s.kids[i]) > 0 {
      var i :| 0 <= i < |s.kids| && InHand(s.kids[i]) > 0;
      assert !CanMove(s.kids[i]);
      assert i in ReadyPipes(s, c.pipes);
    } else {
      EveryoneAvailable(s);
    }
  }

  lemma EveryoneAvailable(s: State)
    requires Inv(s) && forall i :: 0 <= i < |s.kids| ==> InHand(s.kids[i]) == 0
    ensures s.t.navail == |s.kids|
  {
    assert forall i :: 0 <= i < |s.kids| ==> ChildOk(s, i) ==> s.t.status[i] == 0;
    AllIdle(|s.kids|);
    assert s.t.status == seq(|s.kids|, _ => 0);
  }

  lemma AllServed(s: State)
    requires Inv(s) && s.backlog == [] && forall i :: 0 <= i < |s.kids| ==> InHand(s.kids[i]) == 0
    ensures Conns(s.log) == s.arrived && s.t.navail == |s.kids|
    ensures forall i :: 0 <= i < |s.kids| ==> Given(s.log, i) == s.kids[i].finished
  {
    EveryoneAvailable(s);
    forall i | 0 <= i < |s.kids| ensures Given(s.log, i) == s.kids[i].finished {
      assert ChildOk(s, i) && Unfinished(s.kids[i]) == [];
    }
  }

  // ----- the parent's code -----

  class Parent {
    const status: array<int>
    const count: array<nat>
    var navail: int
    var nsel: int

    ghost function Abs(): Table
      reads this, status, count
    {
      Table(status[..], count[..], navail, nsel)
    }

    constructor (nchildren: nat)
      ensures status.Length == count.Length == nchildren && status as object != count
      ensures Abs() == Start(nchildren).t && fresh(status) && fresh(count)
    {
      status := new int[nchildren](_ => 0);
      count := new nat[nchildren](_ => 0);
      navail, nsel := nchildren, 0;
    }

    /** Books the connection just accepted to the first available child; fails when there is none. */
    method Assign() returns (i: nat, found: bool)
      requires status.Length == count.Length && status as object != count
      modifies this, status, count
      ensures i == FirstWith(old(status[..]), Available) && found == (i < status.Length)
      ensures Abs() == if found then Busy(old(Abs()), i) else old(Abs())
    {
      i := 0;
      while i < status.Length && status[i] != 0
        invariant 0 <= i <= status.Length
        invariant forall j :: 0 <= j < i ==> status[j] != 0
      {
        i := i + 1;
      }
      FirstWithUnique(status[..], Available, i);
      found := i < status.Length;
      if found {
        status[i] := 1;
        count[i] := count[i] + 1;
        navail := navail - 1;
        nsel := nsel - 1;
      }
    }

    /** What follows Select: a new connection first, unless nothing else was reported then the pipes. */
    method Pass(listen: bool, pipes: set<nat>) returns (taker: Option<nat>, noneAvailable: bool)
      requires status.Length == count.Length && status as object != count
      requires forall i :: i in pipes ==> i < status.Length && status[i] == 1
      requires nsel == |pipes| + (if listen then 1 else 0) > 0
      requires navail == IdleCount(status[..]) && (listen ==> navail > 0)
      modifies this, status, count
      ensures !noneAvailable && taker == Taker(old(Abs()), listen)
      ensures listen ==> taker.value < status.Length && taker.value !in pipes
      ensures Abs() == PassTable(old(Abs()), taker, pipes)
    {
      taker, noneAvailable := None, false;
      if listen {
        IdleExists(status[..]);
        var i, found := Assign();
        if !found {
          return None, true;
        }
        taker := Some(i);
        if nsel == 0 {
          assert pipes == {};
          return;
        }
      }
      Scan(pipes);
    }

    /** The second half of a pass: every pipe in rset is read once and its child marked available,
        although the loop stops as soon as nsel reaches zero. */
    method Scan(rset: set<nat>)
      requires forall i :: i in rset ==> i < status.Length
      requires nsel == |rset| > 0 && status.Length == count.Length && status as object != count
      modifies this, status
      ensures Abs() == PassTable(old(Abs()), None, rset)
    {
      hide PassTable;
      ghost var rest := rset;
      var i := 0;
      while i < status.Length
        invariant 0 <= i <= status.Length && nsel == |rest| > 0 && {} < rest <= rset
        invariant forall j :: j in rest ==> i <= j
        invariant forall j :: j in rset && i <= j ==> j in rest
        invariant PassTable(Abs(), None, rest) == PassTable(old(Abs()), None, rset)
      {
        if i in rset {
          FreedPass(Abs(), i, rest);
          ghost var t := Abs();
          status[i] := 0;
          navail := navail + 1;
          nsel := nsel - 1;
          assert Abs() == Freed(t, i);
          rest := rest - {i};
          if nsel == 0 {
            PassOver(Abs(), rest);
            return;
          }
        }
        i := i + 1;
      }
      assert false;
    }
  }

  /** Reading one pipe takes it from those still to be read. */
  lemma FreedPass(t: Table, i: nat, rest: set<nat>)
    requires |t.status| == |t.count| && i < |t.status| && i in rest
    ensures PassTable(Freed(t, i), None, rest - {i}) == PassTable(t, None, rest)
    ensures |rest - {i}| == |rest| - 1
  {
  }

  lemma PassOver(t: Table, rest: set<nat>)
    requires |t.status| == |t.count| && t.nsel == |rest| == 0
    ensures PassTable(t, None, rest) == t
  {
    assert rest == {};
  }
}
