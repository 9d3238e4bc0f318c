/** str_cli with nonblocking I/O: standard input to the socket, the socket to standard output. */
module Relay {
  import opened Text

  // ----- what the kernel answers -----

  /** A read: would block, fails, or gives the bytes on offer as far as there is room; none means end of file. */
  datatype ReadResult = ReadBlocked | ReadFailed | Got(bytes: seq<Byte>)

  datatype WriteResult = WriteBlocked | WriteFailed | Accepted(count: nat)

  /** One Select and the answers to the calls that may follow it. */
  datatype Round = Round(stdinReady: bool, sockReadable: bool, stdoutReady: bool, sockWritable: bool,
                         stdin: ReadResult, sock: ReadResult, stdout: WriteResult, peer: WriteResult)

  function Take(bytes: seq<Byte>, room: nat): seq<Byte> {
    if |bytes| <= room then bytes else bytes[..room]
  }

  function Clip(n: nat, most: nat): nat { if n <= most then n else most }

  // ----- the specification -----

  /** A buffer: how much of it has been used up in front, and what waits in it. */
  datatype Buffer = Buffer(start: nat, pending: seq<Byte>)
  {
    function Room(): int { MAXLINE - start - |pending| }

    function Add(bytes: seq<Byte>): Buffer { this.(pending := pending + bytes) }

    /** Once empty the buffer starts over. */
    function Drop(n: nat): Buffer
      requires n <= |pending|
    {
      if n == |pending| then Buffer(0, []) else Buffer(start + n, pending[n..])
    }

    predicate Ok() { Room() >= 0 && (pending == [] ==> start == 0) }
  }

  /** Everything that crossed the four descriptors. fins counts the FINs, atFin what had been sent before the last. */
  datatype Log = Log(typed: seq<Byte>, sent: seq<Byte>, received: seq<Byte>, shown: seq<Byte>, fins: nat, atFin: nat)

  datatype State = State(to: Buffer, fr: Buffer, stdineof: bool, log: Log)

  /** After a step the loop goes on, has returned, or the program has exited on an error. */
  datatype Outcome = Running(s: State) | Returned(s: State) | Exited

  const START := State(Buffer(0, []), Buffer(0, []), false, Log([], [], [], [], 0, 0))

  function SendFin(s: State): State {
    s.(log := s.log.(fins := s.log.fins + 1, atFin := |s.log.sent|))
  }

  function ReadStdin(s: State, r: ReadResult): Outcome
    requires s.to.Room() > 0
  {
    match r
    case ReadBlocked => Running(s)
    case ReadFailed => Exited
    case Got(bytes) =>
      if bytes == [] then
        var t := s.(stdineof := true);
        Running(if s.to.pending == [] then SendFin(t) else t)
      else
        var b := Take(bytes, s.to.Room());
        Running(s.(to := s.to.Add(b), log := s.log.(typed := s.log.typed + b)))
  }

  function ReadSock(s: State, r: ReadResult): Outcome
    requires s.fr.Room() > 0
  {
    match r
    case ReadBlocked => Running(s)
    case ReadFailed => Exited
    case Got(bytes) =>
      if bytes == [] then
        if s.stdineof then Returned(s) else Exited
      else
        var b := Take(bytes, s.fr.Room());
        Running(s.(fr := s.fr.Add(b), log := s.log.(received := s.log.received + b)))
  }

  function WriteStdout(s: State, r: WriteResult): Outcome {
    match r
    case WriteBlocked => Running(s)
    case WriteFailed => Exited
    case Accepted(count) =>
      var n := Clip(count, |s.fr.pending|);
      Running(s.(fr := s.fr.Drop(n), log := s.log.(shown := s.log.shown + s.fr.pending[..n])))
  }

  function WriteSock(s: State, r: WriteResult): Outcome {
    match r
    case WriteBlocked => Running(s)
    case WriteFailed => Exited
    case Accepted(count) =>
      var n := Clip(count, |s.to.pending|);
      var t := s.(to := s.to.Drop(n), log := s.log.(sent := s.log.sent + s.to.pending[..n]));
      Running(if n == |s.to.pending| && s.stdineof then SendFin(t) else t)
  }

  predicate WatchStdin(s: State) { !s.stdineof && s.to.Room() > 0 }
  predicate WatchSockRead(s: State) { s.fr.Room() > 0 }
  predicate WatchSockWrite(s: State) { s.to.pending != [] }
  predicate WatchStdout(s: State) { s.fr.pending != [] }

  predicate GotData(r: ReadResult) { r.Got? && r.bytes != [] }

  /** The reading half of a turn. Data just read is to be written in the same turn, whatever Select said. */
  function Reads(s: State, e: Round): (Outcome, bool, bool) {
    var readIn := WatchStdin(s) && e.stdinReady;
    var writeSock := (WatchSockWrite(s) && e.sockWritable) || (readIn && GotData(e.stdin));
    var o := if readIn then ReadStdin(s, e.stdin) else Running(s);
    if !o.Running? then (o, false, false) else
    var readSock := WatchSockRead(o.s) && e.sockReadable;
    var writeOut := (WatchStdout(s) && e.stdoutReady) || (readSock && GotData(e.sock));
    (if readSock then ReadSock(o.s, e.sock) else o, writeOut, writeSock)
  }

  function Writes(s: State, writeOut: bool, writeSock: bool, e: Round): Outcome {
    var o := if writeOut && s.fr.pending != [] then WriteStdout(s, e.stdout) else Running(s);
    if !o.Running? then o
    else if writeSock && o.s.to.pending != [] then WriteSock(o.s, e.peer) else o
  }

  /** One turn of the loop. */
  function Turn(s: State, e: Round): Outcome {
    var (o, writeOut, writeSock) := Reads(s, e);
    if o.Running? then Writes(o.s, writeOut, writeSock, e) else o
  }

  function Run(s: State, rounds: seq<Round>): Outcome
    decreases |rounds|
  {
    if rounds == [] then Running(s)
    else match Turn(s, rounds[0])
      case Running(t) => Run(t, rounds[1..])
      case other => other
  }

  // ----- what every state keeps -----

  ghost predicate Inv(s: State) {
    && s.to.Ok() && s.fr.Ok()
    // nothing is lost, invented or reordered, in either direction
    && s.log.typed == s.log.sent + s.to.pending
    && s.log.received == s.log.shown + s.fr.pending
    // the FIN: once, exactly when standard input has ended and all of it is out, and nothing after it
    && s.log.fins <= 1
    && (s.log.fins == 1 <==> s.stdineof && s.to.pending == [])
    && (s.log.fins == 1 ==> s.log.atFin == |s.log.sent|)
  }

  /** What one state may become in time: the record only grows, and a FIN ends the sending. */
  ghost predicate Later(s: State, t: State) {
    && s.log.typed <= t.log.typed && s.log.sent <= t.log.sent
    && s.log.received <= t.log.received && s.log.shown <= t.log.shown
    && (s.stdineof ==> t.stdineof && t.log.typed == s.log.typed)
    && (s.log.fins == 1 ==> t.log.fins == 1 && t.log.sent == s.log.sent && t.log.atFin == s.log.atFin)
  }

  ghost predicate Good(s: State, o: Outcome) { o.Exited? || (Inv(o.s) && Later(s, o.s)) }

  lemma ReadStdinGood(s: State, r: ReadResult)
    requires Inv(s) && WatchStdin(s)
    ensures Good(s, ReadStdin(s, r))
  {
    if GotData(r) {
      var b := Take(r.bytes, s.to.Room());
      assert s.log.sent + s.to.pending + b == s.log.sent + (s.to.pending + b);
    }
  }

  lemma ReadSockGood(s: State, r: ReadResult)
    requires Inv(s) && WatchSockRead(s)
    ensures Good(s, ReadSock(s, r))
    ensures ReadSock(s, r).Returned? ==> ReadSock(s, r).s == s && s.stdineof
  {
    if GotData(r) {
      var b := Take(r.bytes, s.fr.Room());
      assert s.log.shown + s.fr.pending + b == s.log.shown + (s.fr.pending + b);
    }
  }

  lemma WriteStdoutGood(s: State, r: WriteResult)
    requires Inv(s)
    ensures Good(s, WriteStdout(s, r))
  {
    if r.Accepted? {
      var n := Clip(r.count, |s.fr.pending|);
      assert s.log.shown + s.fr.pending == s.log.shown + s.fr.pending[..n] + s.fr.pending[n..];
    }
  }

  lemma WriteSockGood(s: State, r: WriteResult)
    requires Inv(s) && s.to.pending != []
    ensures Good(s, WriteSock(s, r))
  {
    if r.Accepted? {
      var n := Clip(r.count, |s.to.pending|);
      assert s.log.sent + s.to.pending == s.log.sent + s.to.pending[..n] + s.to.pending[n..];
    }
  }

  lemma LaterTrans(s: State, t: State, u: State)
    requires Later(s, t) && Later(t, u)
    ensures Later(s, u)
  {
  }

  lemma ReadsGood(s: State, e: Round)
    requires Inv(s)
    ensures Good(s, Reads(s, e).0)
    ensures Reads(s, e).0.Returned? ==> Reads(s, e).0.s.stdineof
  {
    hide Inv;
    hide Later;
    hide ReadStdin;
    hide ReadSock;
    Self(s);
    StdinNeverReturns(s, e.stdin);
    if WatchStdin(s) && e.stdinReady {
      ReadStdinGood(s, e.stdin);
    }
    var o := if WatchStdin(s) && e.stdinReady then ReadStdin(s, e.stdin) else Running(s);
    if o.Running? {
      Self(o.s);
      if WatchSockRead(o.s) && e.sockReadable {
        ReadSockGood(o.s, e.sock);
      }
      var p := Reads(s, e).0;
      if !p.Exited? {
        LaterTrans(s, o.s, p.s);
      }
    }
  }

  lemma WritesGood(s: State, writeOut: bool, writeSock: bool, e: Round)
    requires Inv(s)
    ensures Good(s, Writes(s, writeOut, writeSock, e)) && !Writes(s, writeOut, writeSock, e).Returned?
  {
    hide Inv;
    hide Later;
    hide WriteStdout;
    hide WriteSock;
    Self(s);
    WriteStdoutGood(s, e.stdout);
    WritesNeverReturn(s, e.stdout);
    var o := if writeOut && s.fr.pending != [] then WriteStdout(s, e.stdout) else Running(s);
    if o.Running? {
      Self(o.s);
      if o.s.to.pending != [] {
        WriteSockGood(o.s, e.peer);
      }
      WritesNeverReturn(o.s, e.peer);
      var p := Writes(s, writeOut, writeSock, e);
      if !p.Exited? {
        LaterTrans(s, o.s, p.s);
      }
    }
  }

  lemma TurnGood(s: State, e: Round)
    requires Inv(s)
    ensures Good(s, Turn(s, e))
    ensures Turn(s, e).Returned? ==> Turn(s, e).s.stdineof
  {
    hide Inv;
    hide Later;
    hide Reads;
    hide Writes;
    ReadsGood(s, e);
    var (o, writeOut, writeSock) := Reads(s, e);
    if o.Running? {
      WritesGood(o.s, writeOut, writeSock, e);
      var p := Writes(o.s, writeOut, writeSock, e);
      if !p.Exited? {
        LaterTrans(s, o.s, p.s);
      }
    }
  }

  lemma Self(s: State)
    ensures Later(s, s)
  {
  }

  lemma WritesNeverReturn(s: State, r: WriteResult)
    ensures !WriteStdout(s, r).Returned? && !WriteSock(s, r).Returned?
  {
  }

  lemma StdinNeverReturns(s: State, r: ReadResult)
    ensures s.to.Room() > 0 ==> !ReadStdin(s, r).Returned?
  {
  }

  /** Every run, whatever the kernel answers: conservation both ways, and the FIN discipline.
      The loop only ever returns after the end of standard input. */
  lemma {:induction false} RunGood(s: State, rounds: seq<Round>)
    requires Inv(s)
    ensures Good(s, Run(s, rounds))
    ensures Run(s, rounds).Returned? ==> Run(s, rounds).s.stdineof
    decreases |rounds|
  {
    Self(s);
    if rounds != [] {
      TurnGood(s, rounds[0]);
      var o := Turn(s, rounds[0]);
      if o.Running? {
        RunGood(o.s, rounds[1..]);
        var p := Run(o.s, rounds[1..]);
        if !p.Exited? {
          LaterTrans(s, o.s, p.s);
        }
      }
    }
  }

  lemma EveryRun(rounds: seq<Round>)
    ensures Good(START, Run(START, rounds))
  {
    RunGood(START, rounds);
  }

  /** The relay never stalls itself: some descriptor is always watched in each direction still open. */
  lemma NeverStalls(s: State)
    requires Inv(s)
    ensures WatchSockRead(s) || WatchStdout(s)
    ensures s.log.fins == 0 ==> WatchStdin(s) || WatchSockWrite(s)
  {
  }

  lemma ReadsFill(s: State, e: Round)
    requires Inv(s)
    ensures WatchStdin(s) && ReadStdin(s, e.stdin).Running? ==>
              ReadStdin(s, e.stdin).s.fr == s.fr && (ReadStdin(s, e.stdin).s.to == s.to || GotData(e.stdin))
    ensures WatchSockRead(s) && ReadSock(s, e.sock).Running? ==>
              ReadSock(s, e.sock).s.to == s.to && (ReadSock(s, e.sock).s.fr == s.fr || GotData(e.sock))
  {
  }

  lemma FullWrites(s: State, r: WriteResult)
    requires Inv(s) && r.Accepted? && r.count >= MAXLINE
    ensures WriteStdout(s, r).Running? && WriteStdout(s, r).s.fr.pending == [] && WriteStdout(s, r).s.to == s.to
    ensures WriteSock(s, r).Running? && WriteSock(s, r).s.to.pending == [] && WriteSock(s, r).s.fr == s.fr
  {
  }

  lemma Drained(t: State)
    requires Inv(t) && t.to.pending == [] && t.fr.pending == []
    ensures t.log.sent == t.log.typed && t.log.shown == t.log.received && (t.stdineof ==> t.log.fins == 1)
  {
  }

  /** When both writes take everything a turn that goes on leaves both buffers empty, and after the end
      of standard input the FIN is out. */
  lemma GenerousTurnDrains(s: State, e: Round)
    requires Inv(s) && e.stdoutReady && e.sockWritable
    requires e.stdout.Accepted? && e.stdout.count >= MAXLINE && e.peer.Accepted? && e.peer.count >= MAXLINE
    requires Turn(s, e).Running?
    ensures var t := Turn(s, e).s;
            t.to.pending == [] && t.fr.pending == [] && t.log.sent == t.log.typed && t.log.shown == t.log.received
            && (t.stdineof ==> t.log.fins == 1)
  {
    hide ReadStdin;
    hide ReadSock;
    hide WriteStdout;
    hide WriteSock;
    hide Inv;
    hide Later;
    TurnGood(s, e);
    ReadsFill(s, e);
    var readIn := WatchStdin(s) && e.stdinReady;
    if readIn {
      ReadStdinGood(s, e.stdin);
    }
    var o1 := if readIn then ReadStdin(s, e.stdin) else Running(s);
    ReadsFill(o1.s, e);
    var readSock := WatchSockRead(o1.s) && e.sockReadable;
    if readSock {
      ReadSockGood(o1.s, e.sock);
    }
    var o2 := if readSock then ReadSock(o1.s, e.sock) else o1;
    FullWrites(o2.s, e.stdout);
    WriteStdoutGood(o2.s, e.stdout);
    var o3 := if o2.s.fr.pending != [] then WriteStdout(o2.s, e.stdout) else o2;
    FullWrites(o3.s, e.peer);
    Drained(Turn(s, e).s);
  }

  // ----- what a turn reads and writes, and how a run ends -----

  function Used(b: Buffer): nat { b.start + |b.pending| }

  /** Which reads a turn makes: of a descriptor that is watched and reported. */
  predicate ReadsIn(s: State, e: Round) { !s.stdineof && Used(s.to) < 4096 && e.stdinReady }

  predicate ReadsPeer(s: State, e: Round) { Used(s.fr) < 4096 && e.sockReadable }

  /** What a read yields, as far as the buffer reaches. */
  function Yield(made: bool, r: ReadResult, used: nat): seq<Byte> {
    if !made || !r.Got? then [] else if used + |r.bytes| <= 4096 then r.bytes
    else if used <= 4096 then r.bytes[..4096 - used] else []
  }

  function NewIn(s: State, e: Round): seq<Byte> { Yield(ReadsIn(s, e), e.stdin, Used(s.to)) }

  function NewPeer(s: State, e: Round): seq<Byte> { Yield(ReadsPeer(s, e), e.sock, Used(s.fr)) }

  predicate EndsIn(s: State, e: Round) { ReadsIn(s, e) && e.stdin == Got([]) }

  predicate EndsPeer(s: State, e: Round) { ReadsPeer(s, e) && e.sock == Got([]) }

  /** Which writes it makes: of a buffer that waited and whose descriptor is reported, or into which it has just
      read. */
  predicate WritesOut(s: State, e: Round) { (s.fr.pending != [] && e.stdoutReady) || NewPeer(s, e) != [] }

  predicate WritesPeer(s: State, e: Round) { (s.to.pending != [] && e.sockWritable) || NewIn(s, e) != [] }

  function Written(made: bool, r: WriteResult, pending: seq<Byte>): seq<Byte> {
    if !made || !r.Accepted? then [] else if r.count <= |pending| then pending[..r.count] else pending
  }

  /** The loop returns at the socket's end of file behind that of standard input, be it of this very turn. */
  predicate Returns(s: State, e: Round) { EndsPeer(s, e) && (s.stdineof || EndsIn(s, e)) }

  /** The program exits at a failed call, or at the socket's end of file before that of standard input. */
  predicate Exits(s: State, e: Round) {
    || (ReadsIn(s, e) && e.stdin.ReadFailed?)
    || (ReadsPeer(s, e) && e.sock.ReadFailed?)
    || (EndsPeer(s, e) && !s.stdineof && !EndsIn(s, e))
    || (!EndsPeer(s, e) && WritesOut(s, e) && e.stdout.WriteFailed?)
    || (!EndsPeer(s, e) && WritesPeer(s, e) && e.peer.WriteFailed?)
  }

  lemma StdinExactly(s: State, e: Round)
    requires Inv(s) && ReadsIn(s, e)
    ensures WatchStdin(s)
    ensures var o := ReadStdin(s, e.stdin);
            && !o.Returned? && (o.Exited? <==> e.stdin.ReadFailed?)
            && (o.Running? ==>
                  && o.s.fr == s.fr && o.s.to == s.to.(pending := s.to.pending + NewIn(s, e))
                  && (o.s.stdineof <==> EndsIn(s, e))
                  && o.s.log.(fins := 0, atFin := 0) ==
                     s.log.(typed := s.log.typed + NewIn(s, e), fins := 0, atFin := 0)
                  && (GotData(e.stdin) <==> NewIn(s, e) != []))
  {
    assert s.to.pending + [] == s.to.pending && s.log.typed + [] == s.log.typed;
  }

  lemma PeerExactly(s: State, e: Round)
    requires Inv(s) && ReadsPeer(s, e)
    ensures WatchSockRead(s)
    ensures var o := ReadSock(s, e.sock);
            && (o.Exited? <==> e.sock.ReadFailed? || (e.sock == Got([]) && !s.stdineof))
            && (o.Returned? <==> e.sock == Got([]) && s.stdineof)
            && (o.Returned? ==> o.s == s && s.fr.pending + NewPeer(s, e) == s.fr.pending
                                && s.log.received + NewPeer(s, e) == s.log.received)
            && (o.Running? ==>
                  && o.s == s.(fr := s.fr.(pending := s.fr.pending + NewPeer(s, e)),
                               log := s.log.(received := s.log.received + NewPeer(s, e)))
                  && (GotData(e.sock) <==> NewPeer(s, e) != []))
  {
    assert s.fr.pending + [] == s.fr.pending && s.log.received + [] == s.log.received;
  }

  lemma OutExactly(s: State, r: WriteResult)
    ensures var o := WriteStdout(s, r);
            && !o.Returned? && (o.Exited? <==> r.WriteFailed?)
            && (o.Running? ==>
                  && o.s.to == s.to && o.s.stdineof == s.stdineof
                  && o.s.log == s.log.(shown := s.log.shown + Written(true, r, s.fr.pending)))
  {
    assert s.log.shown + [] == s.log.shown;
  }

  lemma WriteExactly(s: State, r: WriteResult)
    ensures var o := WriteSock(s, r);
            && !o.Returned? && (o.Exited? <==> r.WriteFailed?)
            && (o.Running? ==>
                  && o.s.fr == s.fr && o.s.stdineof == s.stdineof
                  && o.s.log.(fins := 0, atFin := 0) ==
                     s.log.(sent := s.log.sent + Written(true, r, s.to.pending), fins := 0, atFin := 0))
  {
    assert s.log.sent + [] == s.log.sent;
  }

  /** The state once the reads are over, but for the FIN. */
  ghost predicate HasRead(s: State, e: Round, t: State) {
    && t.to.pending == s.to.pending + NewIn(s, e) && t.fr.pending == s.fr.pending + NewPeer(s, e)
    && (t.stdineof <==> s.stdineof || EndsIn(s, e))
    && t.log.typed == s.log.typed + NewIn(s, e) && t.log.received == s.log.received + NewPeer(s, e)
    && t.log.sent == s.log.sent && t.log.shown == s.log.shown
  }

  lemma NothingNew(s: State, e: Round)
    ensures !ReadsIn(s, e) ==> s.to.pending + NewIn(s, e) == s.to.pending && s.log.typed + NewIn(s, e) == s.log.typed
    ensures !ReadsPeer(s, e) ==>
              s.fr.pending + NewPeer(s, e) == s.fr.pending && s.log.received + NewPeer(s, e) == s.log.received
  {
  }

  lemma ReadsExactly(s: State, e: Round)
    requires Inv(s)
    ensures var (o, writeOut, writeSock) := Reads(s, e);
            && (o.Exited? <==> (ReadsIn(s, e) && e.stdin.ReadFailed?) || (ReadsPeer(s, e) && e.sock.ReadFailed?)
                               || (EndsPeer(s, e) && !s.stdineof && !EndsIn(s, e)))
            && (o.Returned? <==> Returns(s, e))
            && (!o.Exited? ==> HasRead(s, e, o.s))
            && (o.Running? ==> !EndsPeer(s, e))
            && (o.Running? ==> writeOut == WritesOut(s, e) && writeSock == WritesPeer(s, e))
  {
    hide ReadStdin;
    hide ReadSock;
    hide Yield;
    NothingNew(s, e);
    if ReadsIn(s, e) {
      StdinExactly(s, e);
      ReadStdinGood(s, e.stdin);
    }
    var o := if ReadsIn(s, e) then ReadStdin(s, e.stdin) else Running(s);
    assert WatchStdin(s) && e.stdinReady <==> ReadsIn(s, e);
    if o.Running? {
      assert ReadsPeer(o.s, e) <==> ReadsPeer(s, e);
      assert WatchSockRead(o.s) && e.sockReadable <==> ReadsPeer(s, e);
      if ReadsPeer(s, e) {
        PeerExactly(o.s, e);
        assert NewPeer(o.s, e) == NewPeer(s, e);
      }
    }
  }

  /** One turn, exactly: whether it is the last and why, what it reads, and what it writes. */
  lemma TurnExactly(s: State, e: Round)
    requires Inv(s)
    ensures var o := Turn(s, e);
            && (o.Exited? <==> Exits(s, e)) && (o.Returned? <==> Returns(s, e))
            && (!o.Exited? ==>
                  && (o.s.stdineof <==> s.stdineof || EndsIn(s, e))
                  && o.s.log.typed == s.log.typed + NewIn(s, e)
                  && o.s.log.received == s.log.received + NewPeer(s, e))
            && (o.Returned? ==> o.s.log.sent == s.log.sent && o.s.log.shown == s.log.shown)
            && (o.Running? ==>
                  && o.s.log.shown ==
                     s.log.shown + Written(WritesOut(s, e), e.stdout, s.fr.pending + NewPeer(s, e))
                  && o.s.log.sent ==
                     s.log.sent + Written(WritesPeer(s, e), e.peer, s.to.pending + NewIn(s, e)))
  {
    hide Reads;
    hide ReadsIn;
    hide ReadsPeer;
    hide Inv;
    hide Yield;
    hide WriteStdout;
    hide WriteSock;
    ReadsExactly(s, e);
    var (o, writeOut, writeSock) := Reads(s, e);
    if o.Running? {
      var t := o.s;
      OutExactly(t, e.stdout);
      var p := if writeOut && t.fr.pending != [] then WriteStdout(t, e.stdout) else Running(t);
      assert writeOut ==> t.fr.pending != [];
      assert writeSock ==> t.to.pending != [];
      assert t.log.shown + [] == t.log.shown && t.log.sent + [] == t.log.sent;
      if p.Running? {
        WriteExactly(p.s, e.peer);
      }
    }
  }

  /** Round k is reached, and it is one that exits, or one that returns. */
  ghost predicate StopsAt(s: State, rounds: seq<Round>, k: nat, exits: bool)
    requires k < |rounds|
  {
    var o := Run(s, rounds[..k]);
    o.Running? && if exits then Exits(o.s, rounds[k]) else Returns(o.s, rounds[k])
  }

  lemma StopsLater(s: State, rounds: seq<Round>, k: nat, exits: bool)
    requires 0 < k < |rounds|
    ensures StopsAt(s, rounds, k, exits) <==>
              Turn(s, rounds[0]).Running? && StopsAt(Turn(s, rounds[0]).s, rounds[1..], k - 1, exits)
  {
    assert rounds[..k][0] == rounds[0] && rounds[..k][1..] == rounds[1..][..k - 1];
  }

  lemma StopsNow(s: State, rounds: seq<Round>, exits: bool)
    requires Inv(s) && rounds != []
    ensures StopsAt(s, rounds, 0, exits) <==>
              if exits then Turn(s, rounds[0]).Exited? else Turn(s, rounds[0]).Returned?
  {
    TurnExactly(s, rounds[0]);
    assert rounds[..0] == [] && Run(s, []) == Running(s);
  }

  lemma {:induction false} RunsStop(s: State, rounds: seq<Round>, exits: bool)
    requires Inv(s)
    ensures (if exits then Run(s, rounds).Exited? else Run(s, rounds).Returned?) <==>
              exists k :: 0 <= k < |rounds| && StopsAt(s, rounds, k, exits)
    decreases |rounds|
  {
    hide Inv;
    hide Later;
    hide Turn;
    hide StopsAt;
    if rounds != [] {
      var o := Turn(s, rounds[0]);
      StopsNow(s, rounds, exits);
      forall k | 0 < k < |rounds|
        ensures StopsAt(s, rounds, k, exits) <==> o.Running? && StopsAt(o.s, rounds[1..], k - 1, exits)
      {
        StopsLater(s, rounds, k, exits);
      }
      TurnGood(s, rounds[0]);
      if o.Running? {
        RunsStop(o.s, rounds[1..], exits);
        if k :| 0 <= k < |rounds| - 1 && StopsAt(o.s, rounds[1..], k, exits) {
          assert StopsAt(s, rounds, k + 1, exits);
        }
      }
    }
  }

  /** How every run ends: with an exit exactly when some round that is reached has a failed call or the socket's end of
      file too soon, with a return exactly when one has the socket's end of file behind that of standard input. */
  lemma HowRunsEnd(rounds: seq<Round>)
    ensures Run(START, rounds).Exited? <==> exists k :: 0 <= k < |rounds| && StopsAt(START, rounds, k, true)
    ensures Run(START, rounds).Returned? <==> exists k :: 0 <= k < |rounds| && StopsAt(START, rounds, k, false)
  {
    RunsStop(START, rounds, true);
    RunsStop(START, rounds, false);
  }

  // ----- the code -----

  /** read's effect on a buffer: the bytes go in at position `at`, behind what waits from `from` on. */
  method StoreAt(a: array<Byte>, ghost from: nat, at: nat, b: seq<Byte>)
    requires from <= at && at + |b| <= a.Length
    modifies a
    ensures a[from..at + |b|] == old(a[from..at]) + b
  {
    forall k | 0 <= k < |b| {
      a[at + k] := b[k];
    }
  }

  /** str_cli's variables: two buffers and four positions, toi and fri where to read into, too and fro where
      to write from. What crosses the descriptors is recorded in a ghost field. */
  class StrCli {
    const toBuf: array<Byte>
    const frBuf: array<Byte>
    var toi: nat
    var too: nat
    var fri: nat
    var fro: nat
    var stdineof: bool
    ghost var log: Log

    ghost predicate Valid()
      reads this, toBuf, frBuf
    {
      && toBuf != frBuf && toBuf.Length == frBuf.Length == MAXLINE
      && too <= toi <= MAXLINE && fro <= fri <= MAXLINE
    }

    ghost function Abs(): State
      requires Valid()
      reads this, toBuf, frBuf
    {
      State(Buffer(too, toBuf[too..toi]), Buffer(fro, frBuf[fro..fri]), stdineof, log)
    }

    constructor ()
      ensures Valid() && Abs() == START && fresh(toBuf) && fresh(frBuf)
    {
      toBuf := new Byte[MAXLINE];
      frBuf := new Byte[MAXLINE];
      toi, too, fri, fro := 0, 0, 0, 0;
      stdineof := false;
      log := START.log;
    }

    ghost method Shutdown()
      requires Valid()
      modifies this`log
      ensures log == SendFin(old(Abs())).log
    {
      log := log.(fins := log.fins + 1, atFin := |log.sent|);
    }

    /** What read stored from toi on. */
    method TookIn(bytes: seq<Byte>)
      requires Valid() && toi < MAXLINE
      modifies this, toBuf
      ensures Valid()
      ensures var s, b := old(Abs()), Take(bytes, old(Abs()).to.Room());
              Abs() == s.(to := s.to.Add(b), log := s.log.(typed := s.log.typed + b))
    {
      var b := Take(bytes, MAXLINE - toi);
      StoreAt(toBuf, too, toi, b);
      toi := toi + |b|;
      log := log.(typed := log.typed + b);
    }

    method StdinReadable(r: ReadResult) returns (exited: bool)
      requires Valid() && toi < MAXLINE
      modifies this, toBuf
      ensures Valid() && exited == ReadStdin(old(Abs()), r).Exited?
      ensures !exited ==> Running(Abs()) == ReadStdin(old(Abs()), r)
    {
      exited := false;
      match r {
        case ReadFailed => exited := true;
        case ReadBlocked =>
        case Got(bytes) =>
          if bytes == [] {
            if too == toi {
              Shutdown();
            }
            stdineof := true;
          } else {
            TookIn(bytes);
          }
      }
    }

    method SockReadable(r: ReadResult) returns (exited: bool, returned: bool)
      requires Valid() && fri < MAXLINE
      modifies this, frBuf
      ensures Valid()
      ensures var o := ReadSock(old(Abs()), r);
              exited == o.Exited? && returned == o.Returned? && (!exited ==> Abs() == o.s)
    {
      exited, returned := false, false;
      match r {
        case ReadFailed => exited := true;
        case ReadBlocked =>
        case Got(bytes) =>
          if bytes == [] {
            if stdineof {
              returned := true;
            } else {
              exited := true;
            }
          } else {
            var b := Take(bytes, MAXLINE - fri);
            StoreAt(frBuf, fro, fri, b);
            fri := fri + |b|;
            log := log.(received := log.received + b);
          }
      }
    }

    method StdoutWritable(r: WriteResult) returns (exited: bool)
      requires Valid() && fro < fri
      modifies this
      ensures Valid() && exited == WriteStdout(old(Abs()), r).Exited?
      ensures !exited ==> Running(Abs()) == WriteStdout(old(Abs()), r)
    {
      exited := false;
      match r {
        case WriteFailed => exited := true;
        case WriteBlocked =>
        case Accepted(count) =>
          var nwritten := Clip(count, fri - fro);
          log := log.(shown := log.shown + frBuf[fro..fri][..nwritten]);
          fro := fro + nwritten;
          if fro == fri {
            fro, fri := 0, 0;
          }
      }
    }

    method SockWritable(r: WriteResult) returns (exited: bool)
      requires Valid() && too < toi
      modifies this
      ensures Valid() && exited == WriteSock(old(Abs()), r).Exited?
      ensures !exited ==> Running(Abs()) == WriteSock(old(Abs()), r)
    {
      exited := false;
      match r {
        case WriteFailed => exited := true;
        case WriteBlocked =>
        case Accepted(count) =>
          var nwritten := Clip(count, toi - too);
          log := log.(sent := log.sent + toBuf[too..toi][..nwritten]);
          too := too + nwritten;
          if too == toi {
            toi, too := 0, 0;
            if stdineof {
              Shutdown();
            }
          }
      }
    }

    /** The two sets, Select, and the two reading ifs. */
    method ReadHalf(e: Round) returns (exited: bool, returned: bool, writeOut: bool, writeSock: bool)
      requires Valid()
      modifies this, toBuf, frBuf
      ensures Valid()
      ensures var (o, wo, ws) := Reads(old(Abs()), e);
              exited == o.Exited? && returned == o.Returned? && (!exited ==> Abs() == o.s)
              && (o.Running? ==> writeOut == wo && writeSock == ws)
    {
      hide ReadStdin;
      hide ReadSock;
      exited, returned := false, false;
      var readIn := !stdineof && toi < MAXLINE && e.stdinReady;
      var readSock := fri < MAXLINE && e.sockReadable;
      writeSock := too != toi && e.sockWritable;
      writeOut := fro != fri && e.stdoutReady;
      StdinNeverReturns(Abs(), e.stdin);
      StdinKeepsSocketSide(Abs(), e.stdin);
      if readIn {
        exited := StdinReadable(e.stdin);
        if exited {
          return;
        }
        if e.stdin.Got? && e.stdin.bytes != [] {
          writeSock := true;
        }
      }
      if readSock {
        exited, returned := SockReadable(e.sock);
        if exited || returned {
          return;
        }
        if e.sock.Got? && e.sock.bytes != [] {
          writeOut := true;
        }
      }
    }

    /** The two writing ifs. */
    method WriteHalf(e: Round, writeOut: bool, writeSock: bool) returns (exited: bool)
      requires Valid()
      modifies this
      ensures Valid()
      ensures var o := Writes(old(Abs()), writeOut, writeSock, e);
              exited == o.Exited? && !o.Returned? && (!exited ==> Abs() == o.s)
    {
      hide WriteStdout;
      hide WriteSock;
      exited := false;
      WritesNeverReturn(Abs(), e.stdout);
      if writeOut && fri - fro > 0 {
        exited := StdoutWritable(e.stdout);
        if exited {
          return;
        }
      }
      WritesNeverReturn(Abs(), e.peer);
      if writeSock && toi - too > 0 {
        exited := SockWritable(e.peer);
      }
    }

    /** str_cli's loop over any sequence of rounds. */
    method Loop(rounds: seq<Round>) returns (exited: bool, returned: bool)
      requires Valid()
      modifies this, toBuf, frBuf
      ensures Valid()
      ensures var o := Run(old(Abs()), rounds);
              exited == o.Exited? && returned == o.Returned? && (!exited ==> Abs() == o.s)
    {
      hide Reads;
      hide Writes;
      exited, returned := false, false;
      var k := 0;
      while k < |rounds|
        invariant 0 <= k <= |rounds| && Valid() && !exited && !returned
        invariant Run(old(Abs()), rounds) == Run(Abs(), rounds[k..])
      {
        ghost var s := Abs();
        ghost var o := Turn(s, rounds[k]);
        assert rounds[k..][0] == rounds[k] && rounds[k..][1..] == rounds[k + 1..];
        assert Run(s, rounds[k..]) == if o.Running? then Run(o.s, rounds[k + 1..]) else o;
        var writeOut, writeSock;
        exited, returned, writeOut, writeSock := ReadHalf(rounds[k]);
        if exited || returned {
          return;
        }
        exited := WriteHalf(rounds[k], writeOut, writeSock);
        if exited {
          return;
        }
        k := k + 1;
      }
      assert rounds[k..] == [];
    }
  }

  lemma StdinKeepsSocketSide(s: State, r: ReadResult)
    ensures s.to.Room() > 0 && ReadStdin(s, r).Running? ==> ReadStdin(s, r).s.fr == s.fr
  {
  }
}
