/** dg_send_recv over a network that loses, duplicates and reorders, against the echo server. */
module ReliableUdp {
  import opened Text
  import opened Rtt

  const HDR := 8
  const WRAP := 0x1_0000_0000

  // ----- datagrams: an eight-byte header before the data -----

  type Word32 = x: int | 0 <= x < 0x1_0000_0000

  /** A 32-bit word in the client's own memory layout; only the client ever looks inside. */
  function Encode32(n: Word32): (b: seq<Byte>)
    ensures |b| == 4
  {
    [n % 256, n / 256 % 256, n / 0x1_0000 % 256, n / 0x100_0000]
  }

  function Decode32(b: seq<Byte>): Word32
    requires |b| == 4
  {
    (b[0] as int) + 256 * (b[1] as int) + 0x1_0000 * (b[2] as int) + 0x100_0000 * (b[3] as int)
  }

  lemma DecodeEncode(n: Word32)
    ensures Decode32(Encode32(n)) == n
  {
    var a := n / 256;
    var b := a / 256;
    assert n == 256 * a + n % 256 && a == 256 * b + a % 256;
    assert n / 0x1_0000 == b && n / 0x100_0000 == b / 256;
  }

  function Header(seqno: Word32, ts: Word32): (b: seq<Byte>)
    ensures |b| == HDR
  {
    Encode32(seqno) + Encode32(ts)
  }

  function SeqOf(hdr: seq<Byte>): Word32
    requires |hdr| == HDR
  {
    Decode32(hdr[..4])
  }

  function TsOf(hdr: seq<Byte>): Word32
    requires |hdr| == HDR
  {
    Decode32(hdr[4..])
  }

  lemma HeaderFields(seqno: Word32, ts: Word32)
    ensures SeqOf(Header(seqno, ts)) == seqno && TsOf(Header(seqno, ts)) == ts
  {
    DecodeEncode(seqno);
    DecodeEncode(ts);
    assert Header(seqno, ts)[..4] == Encode32(seqno) && Header(seqno, ts)[4..] == Encode32(ts);
  }

  function Cut(b: seq<Byte>, most: nat): seq<Byte> { if |b| <= most then b else b[..most] }

  // ----- the client -----

  /** Between calls, or in one: its request, the room for the reply, and the timeout it began with. */
  datatype ClientPc = Idle | InCall(out: seq<Byte>, inbytes: nat, rto0: real)

  /** The statics of dg_send_recv: rttinfo, rttinit, sendhdr.seq and the bytes of recvhdr. */
  datatype Client = Client(rtt: Info, rttinit: bool, sendSeq: Word32, recvHdr: seq<Byte>, pc: ClientPc)

  /** A call begins, the alarm goes off, or a datagram arrives; with the clock readings then made. */
  datatype Event =
    | Begin(out: seq<Byte>, inbytes: nat, initAt: Time, sentAt: Time)
    | Alarm(at: Time)
    | Arrival(bytes: seq<Byte>, at: Time)

  /** What an event makes the client do besides changing its statics. */
  datatype Effect =
    | Nothing
    | Sent(bytes: seq<Byte>, at: Time)
    | GaveUp
    | Returned(data: seq<Byte>, ms: nat)

  function Message(c: Client, out: seq<Byte>, at: Time): seq<Byte> {
    Header(c.sendSeq, Ts(c.rtt.base, at)) + out
  }

  /** recvmsg scatters: the header first, as far as the datagram goes. */
  function Scatter(hdr: seq<Byte>, bytes: seq<Byte>): (r: seq<Byte>)
    requires |hdr| == HDR
    ensures |r| == HDR
  {
    if |bytes| >= HDR then bytes[..HDR] else bytes + hdr[|bytes|..]
  }

  function BeginCall(c: Client, out: seq<Byte>, inbytes: nat, initAt: Time): Client {
    var rtt := if c.rttinit then c.rtt else Init(c.rtt, initAt.sec);
    c.(rtt := NewPack(rtt), rttinit := true, sendSeq := (c.sendSeq + 1) % WRAP, pc := InCall(out, inbytes, rtt.rto))
  }

  function ClientStep(c: Client, e: Event): (Client, Effect)
    requires |c.recvHdr| == HDR
  {
    match e
    case Begin(out, inbytes, initAt, sentAt) =>
      if c.pc.InCall? then (c, Nothing)
      else
        var d := BeginCall(c, out, inbytes, initAt);
        (d, Sent(Message(d, out, sentAt), sentAt))
    case Alarm(at) =>
      if c.pc.Idle? then (c, Nothing)
      else
        var d := c.(rtt := Timeout(c.rtt));
        if GivesUp(d.rtt) then (d.(rttinit := false, pc := Idle), GaveUp)
        else (d, Sent(Message(d, c.pc.out, at), at))
    case Arrival(bytes, at) =>
      if c.pc.Idle? then (c, Nothing)
      else
        var got := Cut(bytes, HDR + c.pc.inbytes);
        var d := c.(recvHdr := Scatter(c.recvHdr, got));
        if |got| < HDR || SeqOf(d.recvHdr) != d.sendSeq then (d, Nothing)
        else
          var ms := Elapsed(Ts(d.rtt.base, at), TsOf(d.recvHdr));
          (d.(rtt := Stop(d.rtt, ms), pc := Idle), Returned(got[HDR..], ms))
  }

  // ----- the server -----

  /** dg_echo sends back what fits its buffer. */
  function Echo(bytes: seq<Byte>): seq<Byte> { Cut(bytes, MAXLINE) }

  // ----- the network -----

  /** One transmission by the client: in which call, when, and since which base its clock counted. */
  datatype Tx = Tx(call: nat, out: seq<Byte>, at: Time, base: int, bytes: seq<Byte>)

  /** A datagram under way, a copy of the transmission numbered id or of its echo. Datagrams are never used up:
      any may be delivered any number of times, in any order, or never. */
  datatype Flight = Flight(id: nat, bytes: seq<Byte>)

  datatype State = State(client: Client, calls: nat, log: seq<Tx>, requests: set<Flight>, replies: set<Flight>)

  datatype Choice =
    | Call(out: seq<Byte>, inbytes: nat, initAt: Time, sentAt: Time)
    | Expire(at: Time)
    | Serve(request: Flight)
    | Deliver(reply: Flight, at: Time)

  function Transmit(s: State, out: seq<Byte>, f: Effect): State
    requires f.Sent?
  {
    s.(log := s.log + [Tx(s.calls, out, f.at, s.client.rtt.base, f.bytes)],
       requests := s.requests + {Flight(|s.log|, f.bytes)})
  }

  /** A step of the whole and what the client did in it. A choice that is not possible changes nothing. */
  function Step(s: State, c: Choice): (State, Effect)
    requires |s.client.recvHdr| == HDR
  {
    match c
    case Call(out, inbytes, initAt, sentAt) =>
      if s.client.pc.InCall? then (s, Nothing)
      else
        var (d, f) := ClientStep(s.client, Begin(out, inbytes, initAt, sentAt));
        (Transmit(s.(client := d, calls := s.calls + 1), out, f), f)
    case Expire(at) =>
      var (d, f) := ClientStep(s.client, Alarm(at));
      (if f.Sent? then Transmit(s.(client := d), d.pc.out, f) else s.(client := d), f)
    case Serve(r) =>
      (if r in s.requests then s.(replies := s.replies + {Flight(r.id, Echo(r.bytes))}) else s, Nothing)
    case Deliver(r, at) =>
      if r !in s.replies then (s, Nothing)
      else
        var (d, f) := ClientStep(s.client, Arrival(r.bytes, at));
        (s.(client := d), f)
  }

  // ----- the invariant -----

  function SentIn(log: seq<Tx>, call: nat): nat {
    if log == [] then 0 else SentIn(Front(log), call) + if Last(log).call == call then 1 else 0
  }

  function Pow2(n: nat): real { if n == 0 then 1.0 else 2.0 * Pow2(n - 1) }

  ghost predicate TxOk(t: Tx) {
    t.bytes == Header(t.call % WRAP, Ts(t.base, t.at)) + t.out
  }

  /** The call in progress: every transmission of it carries its request and was stamped by the same clock;
      one for the start and one for each timeout, at most four, each timeout twice the one before. */
  ghost predicate CallOk(s: State) {
    match s.client.pc
    case Idle => s.client.rttinit ==> RXTMIN <= s.client.rtt.rto <= RXTMAX
    case InCall(out, inbytes, rto0) =>
      && s.calls > 0 && s.client.rttinit
      && (forall k :: 0 <= k < |s.log| && s.log[k].call == s.calls ==>
            s.log[k].out == out && s.log[k].base == s.client.rtt.base)
      && 0 <= s.client.rtt.nrexmt <= MAXNREXMT
      && SentIn(s.log, s.calls) == s.client.rtt.nrexmt + 1
      && RXTMIN <= rto0 <= RXTMAX && s.client.rtt.rto == rto0 * Pow2(s.client.rtt.nrexmt)
  }

  ghost predicate Inv(s: State) {
    && |s.client.recvHdr| == HDR
    && s.client.sendSeq == s.calls % WRAP
    && (forall k :: 0 <= k < |s.log| ==> TxOk(s.log[k]) && s.log[k].call <= s.calls)
    && (forall f :: f in s.requests ==> f.id < |s.log| && f.bytes == s.log[f.id].bytes)
    && (forall f :: f in s.replies ==> f.id < |s.log| && f.bytes == Echo(s.log[f.id].bytes))
    && CallOk(s)
  }

  function Start(): State {
    State(Client(Info(0.0, 0.0, 0.0, 0.0, 0, 0), false, 0, Encode32(0) + Encode32(0), Idle), 0, [], {}, {})
  }

  lemma StartInv()
    ensures Inv(Start())
  {
  }

  lemma {:induction false} NoneSentYet(log: seq<Tx>, call: nat)
    requires forall k :: 0 <= k < |log| ==> log[k].call < call
    ensures SentIn(log, call) == 0
  {
    if log != [] {
      NoneSentYet(Front(log), call);
    }
  }

  lemma SentOneMore(log: seq<Tx>, t: Tx)
    ensures SentIn(log + [t], t.call) == SentIn(log, t.call) + 1
  {
    assert Front(log + [t]) == log;
  }

  lemma NextSeq(calls: nat)
    ensures (calls % WRAP + 1) % WRAP == (calls + 1) % WRAP
  {
  }

  lemma CallKeepsInv(s: State, out: seq<Byte>, inbytes: nat, initAt: Time, sentAt: Time)
    requires Inv(s)
    ensures Inv(Step(s, Call(out, inbytes, initAt, sentAt)).0)
  {
    if s.client.pc.Idle? {
      var t := Step(s, Call(out, inbytes, initAt, sentAt)).0;
      NextSeq(s.calls);
      NoneSentYet(s.log, s.calls + 1);
      SentOneMore(s.log, Last(t.log));
      assert TxOk(Last(t.log));
      assert t.client.rtt.rto == t.client.pc.rto0 * 1.0;
      RepliesStand(s, t);
    }
  }

  /** A longer log still explains every datagram under way. */
  lemma RepliesStand(s: State, t: State)
    requires Inv(s) && s.log <= t.log && t.replies == s.replies
    ensures forall f :: f in t.replies ==> f.id < |t.log| && f.bytes == Echo(t.log[f.id].bytes)
  {
  }

  lemma ExpireKeepsInv(s: State, at: Time)
    requires Inv(s)
    ensures Inv(Step(s, Expire(at)).0)
  {
    hide Header;
    hide Ts;
    hide Echo;
    var (t, f) := Step(s, Expire(at));
    if f.Sent? {
      SentOneMore(s.log, Last(t.log));
      assert TxOk(Last(t.log));
      var n := s.client.rtt.nrexmt;
      assert 2.0 * (s.client.pc.rto0 * Pow2(n)) == s.client.pc.rto0 * (2.0 * Pow2(n));
      RepliesStand(s, t);
    }
  }

  lemma DeliverKeepsInv(s: State, r: Flight, at: Time)
    requires Inv(s)
    ensures Inv(Step(s, Deliver(r, at)).0)
  {
    hide SentIn;
    hide Pow2;
    hide TxOk;
    hide Echo;
    hide SeqOf;
    hide TsOf;
    hide Elapsed;
    hide Ts;
    hide Cut;
  }

  lemma ServeKeepsInv(s: State, r: Flight)
    requires Inv(s)
    ensures Inv(Step(s, Serve(r)).0)
  {
    hide SentIn;
    hide Pow2;
    hide TxOk;
    hide Echo;
  }

  lemma StepKeepsInv(s: State, c: Choice)
    requires Inv(s)
    ensures Inv(Step(s, c).0)
  {
    hide Inv;
    hide Step;
    match c
    case Call(out, inbytes, initAt, sentAt) => CallKeepsInv(s, out, inbytes, initAt, sentAt);
    case Expire(at) => ExpireKeepsInv(s, at);
    case Serve(r) => ServeKeepsInv(s, r);
    case Deliver(r, at) => DeliverKeepsInv(s, r, at);
  }

  ghost function Run(s: State, choices: seq<Choice>): (t: State)
    requires Inv(s)
    ensures Inv(t)
    decreases |choices|
  {
    if choices == [] then s
    else StepKeepsInv(s, choices[0]); Run(Step(s, choices[0]).0, choices[1..])
  }

  // ----- what a delivery means -----

  /** What of a request comes back: as much as the server's buffer and the caller's room allow. */
  function Echoed(out: seq<Byte>, inbytes: nat): seq<Byte> { Cut(Cut(out, MAXLINE - HDR), inbytes) }

  lemma EchoedParts(t: Tx, inbytes: nat)
    requires TxOk(t)
    ensures var got := Cut(Echo(t.bytes), HDR + inbytes);
            && |got| >= HDR && got[..HDR] == Header(t.call % WRAP, Ts(t.base, t.at))
            && got[HDR..] == Echoed(t.out, inbytes)
  {
    hide Header;
    var h := Header(t.call % WRAP, Ts(t.base, t.at));
    assert Echo(t.bytes) == h + Cut(t.out, MAXLINE - HDR);
    assert Cut(Echo(t.bytes), HDR + inbytes) == h + Echoed(t.out, inbytes);
  }

  /** Which replies end a call, in any state at all: those to a transmission whose call number agrees modulo 2^32. */
  lemma AcceptedExactly(s: State, r: Flight, at: Time)
    requires Inv(s) && s.client.pc.InCall? && r in s.replies
    ensures var (t, f) := Step(s, Deliver(r, at)); var tx := s.log[r.id];
            && (f.Returned? <==> tx.call % WRAP == s.calls % WRAP)
            && (f.Returned? ==>
                  && f.data == Echoed(tx.out, s.client.pc.inbytes)
                  && f.ms == Elapsed(Ts(s.client.rtt.base, at), Ts(tx.base, tx.at))
                  && t.client.rtt == Stop(s.client.rtt, f.ms) && t.client.pc.Idle?)
            && (!f.Returned? ==> t == s.(client := s.client.(recvHdr := t.client.recvHdr)))
  {
    hide Header;
    hide SeqOf;
    hide TsOf;
    hide Ts;
    hide Stop;
    var tx := s.log[r.id];
    assert TxOk(tx);
    EchoedParts(tx, s.client.pc.inbytes);
    HeaderFields(tx.call % WRAP, Ts(tx.base, tx.at));
  }

  /** The heart of the protocol. While fewer than 2^32 calls have been made, a reply delivered in any reachable
      state ends the call exactly when it echoes a transmission of this very call; the data returned is then this
      call's own request, and the measured time is the clock's time since the very transmission whose echo this is. */
  lemma DeliveryMeans(s: State, r: Flight, at: Time)
    requires Inv(s) && s.client.pc.InCall? && r in s.replies && s.calls < WRAP
    ensures var f, tx := Step(s, Deliver(r, at)).1, s.log[r.id];
            && (f.Returned? <==> tx.call == s.calls)
            && (f.Returned? ==>
                  && f.data == Echoed(s.client.pc.out, s.client.pc.inbytes)
                  && f.ms == (Millis(at) - Millis(tx.at)) % WRAP
                  && (0 <= Millis(at) - Millis(tx.at) < WRAP ==> f.ms == Millis(at) - Millis(tx.at)))
  {
    hide Step;
    hide Inv;
    hide Elapsed;
    hide Ts;
    hide Millis;
    hide Echoed;
    hide Stop;
    ReplyOfCall(s, r);
    AcceptedExactly(s, r, at);
    var tx := s.log[r.id];
    ElapsedIsClockTime(tx.base, at, tx.at);
  }

  lemma ReplyOfCall(s: State, r: Flight)
    requires Inv(s) && s.client.pc.InCall? && r in s.replies && s.calls < WRAP
    ensures r.id < |s.log|
    ensures var tx := s.log[r.id];
            && (tx.call % WRAP == s.calls % WRAP <==> tx.call == s.calls)
            && (tx.call == s.calls ==> tx.out == s.client.pc.out && tx.base == s.client.rtt.base)
  {
    hide SentIn;
    hide Pow2;
    hide Header;
    hide Ts;
    hide Echo;
    assert TxOk(s.log[r.id]) && s.log[r.id].call <= s.calls;
  }

  /** In every run of fewer than 2^32 calls: a call that returns data returns the echo of its own request, timed
      from the transmission whose echo arrived. The echo is the start of the request, cut only by the server's buffer
      of 4096 bytes, header included, and the caller's room; a request that fits both comes back whole. */
  lemma EveryReturnIsOwnEcho(choices: seq<Choice>, r: Flight, at: Time)
    ensures Inv(Start())
    ensures var s := Run(Start(), choices); var f := Step(s, Deliver(r, at)).1;
            f.Returned? && s.calls < WRAP ==>
              && r.id < |s.log| && s.log[r.id].call == s.calls && s.client.pc.InCall?
              && f.data == Echoed(s.client.pc.out, s.client.pc.inbytes)
              && f.data <= s.client.pc.out && |f.data| in {|s.client.pc.out|, 4088, s.client.pc.inbytes}
              && |f.data| <= 4088 && |f.data| <= s.client.pc.inbytes
              && (|s.client.pc.out| <= MAXLINE - HDR && |s.client.pc.out| <= s.client.pc.inbytes ==>
                    f.data == s.client.pc.out)
              && f.ms == (Millis(at) - Millis(s.log[r.id].at)) % WRAP
  {
    hide Inv;
    hide Step;
    hide Run;
    hide Millis;
    hide Echoed;
    StartInv();
    var s := Run(Start(), choices);
    OnlyDeliveriesReturn(s, r, at);
    if s.client.pc.InCall? && r in s.replies && s.calls < WRAP {
      DeliveryMeans(s, r, at);
      EchoedWhole(s.client.pc.out, s.client.pc.inbytes);
    }
  }

  lemma EchoedWhole(out: seq<Byte>, inbytes: nat)
    ensures var e := Echoed(out, inbytes);
            e <= out && |e| in {|out|, 4088, inbytes} && |e| <= 4088 && |e| <= inbytes
            && (|out| <= MAXLINE - HDR && |out| <= inbytes ==> e == out)
  {
  }

  lemma OnlyDeliveriesReturn(s: State, r: Flight, at: Time)
    requires Inv(s)
    ensures Step(s, Deliver(r, at)).1.Returned? ==> s.client.pc.InCall? && r in s.replies && r.id < |s.log|
  {
  }

  /** In every run: between calls the timeout is between two seconds and a minute, a call sends at most four
      times, its timeouts double, and it gives up exactly when a fourth timeout passes. */
  lemma TimerDiscipline(choices: seq<Choice>, at: Time)
    ensures Inv(Start())
    ensures var s := Run(Start(), choices);
            && (s.client.pc.Idle? && s.client.rttinit ==> RXTMIN <= s.client.rtt.rto <= RXTMAX)
            && (s.client.pc.InCall? ==>
                  var n := s.client.rtt.nrexmt;
                  && 0 <= n <= MAXNREXMT && SentIn(s.log, s.calls) == n + 1
                  && RXTMIN <= s.client.pc.rto0 <= RXTMAX && s.client.rtt.rto == s.client.pc.rto0 * Pow2(n)
                  && (Step(s, Expire(at)).1.GaveUp? <==> n == MAXNREXMT))
  {
    hide SentIn;
    hide Pow2;
    hide Step;
    hide CallOk;
    StartInv();
    var s := Run(Start(), choices);
    TimerState(s, at);
  }

  lemma TimerState(s: State, at: Time)
    requires Inv(s)
    ensures s.client.pc.Idle? && s.client.rttinit ==> RXTMIN <= s.client.rtt.rto <= RXTMAX
    ensures s.client.pc.InCall? ==>
              var n := s.client.rtt.nrexmt;
              && 0 <= n <= MAXNREXMT && SentIn(s.log, s.calls) == n + 1
              && RXTMIN <= s.client.pc.rto0 <= RXTMAX && s.client.rtt.rto == s.client.pc.rto0 * Pow2(n)
              && (Step(s, Expire(at)).1.GaveUp? <==> n == MAXNREXMT)
  {
    if s.client.pc.InCall? {
      GivesUpExactly(s, at);
    }
  }

  lemma GivesUpExactly(s: State, at: Time)
    requires Inv(s) && s.client.pc.InCall?
    ensures Step(s, Expire(at)).1.GaveUp? <==> s.client.rtt.nrexmt == MAXNREXMT
  {
  }

  // ----- from call to call -----

  lemma HeaderKept(s: State)
    requires Inv(s)
    ensures |s.client.recvHdr| == HDR
  {
  }

  lemma {:induction false} RunSnoc(s: State, choices: seq<Choice>, c: Choice)
    requires Inv(s)
    ensures Run(s, choices + [c]) == Step(Run(s, choices), c).0
    decreases |choices|
  {
    hide Inv;
    hide Step;
    HeaderKept(s);
    if choices == [] {
      assert [c][1..] == [] && [] + [c] == [c];
      StepKeepsInv(s, c);
      assert Run(Step(s, c).0, []) == Step(s, c).0;
    } else {
      StepKeepsInv(s, choices[0]);
      RunSnoc(Step(s, choices[0]).0, choices[1..], c);
      assert (choices + [c])[1..] == choices[1..] + [c];
    }
  }

  function NewSamples(ms: seq<nat>, f: Effect): seq<nat> {
    match f
    case Returned(_, t) => ms + [t]
    case GaveUp => []
    case _ => ms
  }

  /** The times measured by the calls that returned data since a call last gave up. */
  ghost function Samples(choices: seq<Choice>): seq<nat> {
    StartInv();
    if choices == [] then []
    else NewSamples(Samples(Front(choices)), Step(Run(Start(), Front(choices)), Last(choices)).1)
  }

  /** The estimates before anything has been measured. */
  const FRESH := Info(0.0, 0.0, 0.75, 3.0, 0, 0)

  /** The estimators hold exactly these measurements; the timeout they give is the one the call in progress began
      with, or the next call's. */
  ghost predicate Holds(c: Client, ms: seq<nat>) {
    && (!c.rttinit ==> ms == [])
    && (c.rttinit ==>
          var i := StopAll(FRESH, ms);
          c.rtt.srtt == i.srtt && c.rtt.rttvar == i.rttvar
          && (if c.pc.InCall? then c.pc.rto0 else c.rtt.rto) == i.rto)
  }

  lemma MeasuredOnce(i: Info, j: Info, ms: seq<nat>, t: nat)
    requires j == StopAll(FRESH, ms) && i.srtt == j.srtt && i.rttvar == j.rttvar
    ensures var k := StopAll(FRESH, ms + [t]);
            Stop(i, t).srtt == k.srtt && Stop(i, t).rttvar == k.rttvar && Stop(i, t).rto == k.rto
  {
    assert Front(ms + [t]) == ms;
  }

  lemma StepHolds(s: State, c: Choice, ms: seq<nat>)
    requires Inv(s) && Holds(s.client, ms)
    ensures Holds(Step(s, c).0.client, NewSamples(ms, Step(s, c).1))
  {
    hide Stop;
    hide StopAll;
    hide SeqOf;
    hide TsOf;
    hide Elapsed;
    hide Ts;
    hide Header;
    var f := Step(s, c).1;
    NothingMeasured();
    if f.Returned? {
      MeasuredOnce(s.client.rtt, StopAll(FRESH, ms), ms, f.ms);
    }
  }

  lemma NothingMeasured()
    ensures StopAll(FRESH, []) == FRESH
  {
  }

  /** The estimators survive from call to call: in every run they are what the measurements of all calls that returned
      since the last that gave up make of the first estimates, and that is where each call's timeout comes from. */
  lemma {:induction false} EstimatorsCarryOver(choices: seq<Choice>)
    ensures Inv(Start()) && Holds(Run(Start(), choices).client, Samples(choices))
  {
    hide Inv;
    hide Step;
    hide Holds;
    StartInv();
    if choices == [] {
      StartHolds();
    } else {
      EstimatorsCarryOver(Front(choices));
      RunSnoc(Start(), Front(choices), Last(choices));
      assert choices == Front(choices) + [Last(choices)];
      StepHolds(Run(Start(), Front(choices)), Last(choices), Samples(Front(choices)));
    }
  }

  lemma StartHolds()
    ensures Holds(Start().client, [])
  {
  }

  // ----- the code -----

  /** How the blocking call ends: with data, by giving up, or still waiting when nothing more happens. */
  datatype CallResult = Data(bytes: seq<Byte>) | TimedOut | Pending

  /** The client's steps over a list of events up to the first that ends the call, and what it sent. */
  function Talk(c: Client, events: seq<Event>): (Client, seq<seq<Byte>>, CallResult)
    requires |c.recvHdr| == HDR
    decreases |events|
  {
    if events == [] then (c, [], Pending)
    else
      var (d, f) := ClientStep(c, events[0]);
      match f
      case Returned(data, _) => (d, [], Data(data))
      case GaveUp => (d, [], TimedOut)
      case Sent(bytes, _) => var (e, sent, r) := Talk(d, events[1..]); (e, [bytes] + sent, r)
      case Nothing => Talk(d, events[1..])
  }

  lemma TalkSplit(c: Client, events: seq<Event>, k: nat)
    requires |c.recvHdr| == HDR && k < |events|
    ensures var (d, f) := ClientStep(c, events[k]);
            Talk(c, events[k..]) ==
            match f
            case Returned(data, _) => (d, [], Data(data))
            case GaveUp => (d, [], TimedOut)
            case Sent(bytes, _) => var (e, sent, r) := Talk(d, events[k + 1..]); (e, [bytes] + sent, r)
            case Nothing => Talk(d, events[k + 1..])
  {
    assert events[k..][0] == events[k] && events[k..][1..] == events[k + 1..];
  }

  function Prefixed(sent: seq<seq<Byte>>, t: (Client, seq<seq<Byte>>, CallResult))
      : (Client, seq<seq<Byte>>, CallResult)
  {
    (t.0, sent + t.1, t.2)
  }

  lemma PrefixSnoc(sent: seq<seq<Byte>>, m: seq<Byte>, t: (Client, seq<seq<Byte>>, CallResult))
    ensures Prefixed(sent, (t.0, [m] + t.1, t.2)) == Prefixed(sent + [m], t)
  {
    assert sent + ([m] + t.1) == sent + [m] + t.1;
  }

  lemma TalkEnds(c: Client)
    requires |c.recvHdr| == HDR
    ensures Talk(c, []) == (c, [], Pending)
  {
  }

  /** An event that does not end the call leaves its request and room as they are. */
  lemma StillInCall(c: Client, e: Event)
    requires |c.recvHdr| == HDR && c.pc.InCall?
    ensures var (d, f) := ClientStep(c, e);
            |d.recvHdr| == HDR && (f.Sent? || f.Nothing? ==> d.pc == c.pc)
  {
  }

  /** dg_send_recv with its statics as fields. */
  class DgClient {
    const rttinfo: RttInfo
    var rttinit: bool
    var sendSeq: Word32
    var recvHdr: seq<Byte>
    ghost var pc: ClientPc

    ghost function Abs(): Client
      reads this, rttinfo
    {
      Client(rttinfo.Val(), rttinit, sendSeq, recvHdr, pc)
    }

    constructor ()
      ensures Abs() == Start().client && fresh(rttinfo)
    {
      rttinfo := new RttInfo();
      rttinit, sendSeq, recvHdr, pc := false, 0, Encode32(0) + Encode32(0), Idle;
    }

    /** sendagain: a fresh time stamp, the same sequence number and request. */
    method SendAgain(outbuff: seq<Byte>, now: Time) returns (message: seq<Byte>)
      ensures message == Message(Abs(), outbuff, now)
    {
      var ts := Ts(rttinfo.base, now);
      message := Header(sendSeq, ts) + outbuff;
    }

    /** dg_send_recv up to the first send. */
    method Prepare(outbuff: seq<Byte>, inbytes: nat, initAt: Time)
      requires |recvHdr| == HDR && pc.Idle?
      modifies this, rttinfo
      ensures Abs() == BeginCall(old(Abs()), outbuff, inbytes, initAt)
    {
      if !rttinit {
        rttinfo.RttInit(initAt);
        rttinit := true;
      }
      sendSeq := (sendSeq + 1) % WRAP;
      pc := InCall(outbuff, inbytes, rttinfo.rto);
      rttinfo.RttNewpack();
    }

    /** The jump out of the wait when the alarm goes off: send again or give up. */
    method AlarmWent(outbuff: seq<Byte>, at: Time) returns (over: bool, message: seq<Byte>)
      requires |recvHdr| == HDR && pc.InCall? && pc.out == outbuff
      modifies this, rttinfo
      ensures (Abs(), if over then GaveUp else Sent(message, at)) == ClientStep(old(Abs()), Alarm(at))
    {
      message := [];
      var r := rttinfo.RttTimeout();
      over := r < 0;
      if over {
        rttinit := false;
        pc := Idle;
      } else {
        message := SendAgain(outbuff, at);
      }
    }

    /** One turn of the receive loop, and the end of the call if the reply is ours. */
    method Received(inbytes: nat, bytes: seq<Byte>, at: Time) returns (done: bool, data: seq<Byte>, ghost ms: nat)
      requires |recvHdr| == HDR && pc.InCall? && pc.inbytes == inbytes
      modifies this, rttinfo
      ensures (Abs(), if done then Returned(data, ms) else Nothing) == ClientStep(old(Abs()), Arrival(bytes, at))
    {
      done, data, ms := false, [], 0;
      var got := Cut(bytes, HDR + inbytes);
      recvHdr := Scatter(recvHdr, got);
      if |got| < HDR || SeqOf(recvHdr) != sendSeq {
        return;
      }
      var now := Ts(rttinfo.base, at);
      ms := Elapsed(now, TsOf(recvHdr));
      rttinfo.RttStop(Elapsed(now, TsOf(recvHdr)));
      pc := Idle;
      done, data := true, got[HDR..];
    }

    /** One blocking call over whatever then happens: alarms and arriving datagrams, in any number and order. */
    method DgSendRecv(outbuff: seq<Byte>, inbytes: nat, initAt: Time, sentAt: Time, events: seq<Event>)
        returns (sent: seq<seq<Byte>>, result: CallResult)
      requires |recvHdr| == HDR && pc.Idle?
      requires forall e :: e in events ==> !e.Begin?
      modifies this, rttinfo
      ensures (Abs(), sent, result) == Talk(old(Abs()), [Begin(outbuff, inbytes, initAt, sentAt)] + events)
    {
      hide Talk;
      hide Message;
      ghost var all := [Begin(outbuff, inbytes, initAt, sentAt)] + events;
      ghost var c := Abs();
      TalkSplit(c, all, 0);
      assert all[0..] == all && all[1..] == events;
      Prepare(outbuff, inbytes, initAt);
      var message := SendAgain(outbuff, sentAt);
      sent := [message];
      var k := 0;
      while k < |events|
        invariant 0 <= k <= |events| && |recvHdr| == HDR
        invariant pc.InCall? && pc.out == outbuff && pc.inbytes == inbytes
        invariant Talk(c, all) == Prefixed(sent, Talk(Abs(), events[k..]))
      {
        hide ClientStep;
        TalkSplit(Abs(), events, k);
        StillInCall(Abs(), events[k]);
        assert sent + [] == sent;
        match events[k] {
          case Begin(_, _, _, _) => assert false;
          case Alarm(at) =>
            var over;
            over, message := AlarmWent(outbuff, at);
            if over {
              return sent, TimedOut;
            }
            PrefixSnoc(sent, message, Talk(Abs(), events[k + 1..]));
            sent := sent + [message];
          case Arrival(bytes, at) =>
            var done, data;
            ghost var ms;
            done, data, ms := Received(inbytes, bytes, at);
            if done {
              return sent, Data(data);
            }
        }
        k := k + 1;
      }
      assert events[k..] == [];
      TalkEnds(Abs());
      assert sent + [] == sent;
      return sent, Pending;
    }
  }

  /** dg_echo over the datagrams it receives, each answered at once to its sender. */
  method DgEcho(received: seq<(nat, seq<Byte>)>) returns (sent: seq<(nat, seq<Byte>)>)
    ensures |sent| == |received|
    ensures forall i :: 0 <= i < |received| ==> sent[i] == (received[i].0, Echo(received[i].1))
  {
    sent := [];
    for i := 0 to |received|
      invariant |sent| == i
      invariant forall j :: 0 <= j < i ==> sent[j] == (received[j].0, Echo(received[j].1))
    {
      var mesg := Cut(received[i].1, MAXLINE);
      sent := sent + [(received[i].0, mesg)];
    }
  }
}
