/** The round-trip time estimator and the retransmission timer, over the reals. */
module Rtt {
  import opened Text

  const RXTMIN := 2.0
  const RXTMAX := 60.0
  const MAXNREXMT := 3

  /** rtt_info: seconds, except for the retransmission count and the 32-bit base time. */
  datatype Info = Info(rtt: real, srtt: real, rttvar: real, rto: real, nrexmt: int, base: int)

  function Minmax(rto: real): (r: real)
    ensures RXTMIN <= r <= RXTMAX
  {
    if rto < RXTMIN then RXTMIN else if rto > RXTMAX then RXTMAX else rto
  }

  function RtoCalc(srtt: real, rttvar: real): real { srtt + 4.0 * rttvar }

  function Abs(x: real): (a: real)
    ensures a >= 0.0
  {
    if x < 0.0 then -x else x
  }

  /** rtt_init leaves the retransmission count alone. */
  function Init(i: Info, sec: nat): Info {
    Info(0.0, 0.0, 0.75, Minmax(RtoCalc(0.0, 0.75)), i.nrexmt, sec % 0x1_0000_0000)
  }

  function NewPack(i: Info): Info { i.(nrexmt := 0) }

  /** A measurement of ms milliseconds. */
  function Stop(i: Info, ms: nat): Info {
    var rtt := ms as real / 1000.0;
    var delta := rtt - i.srtt;
    var srtt := i.srtt + delta / 8.0;
    var rttvar := i.rttvar + (Abs(delta) - i.rttvar) / 4.0;
    i.(rtt := rtt, srtt := srtt, rttvar := rttvar, rto := Minmax(RtoCalc(srtt, rttvar)))
  }

  function Timeout(i: Info): Info { i.(rto := 2.0 * i.rto, nrexmt := i.nrexmt + 1) }

  predicate GivesUp(i: Info) { i.nrexmt > MAXNREXMT }

  function StopAll(i: Info, ms: seq<nat>): Info {
    if ms == [] then i else Stop(StopAll(i, Front(ms)), Last(ms))
  }

  // ----- the estimator -----

  /** Measurements of at most m seconds keep the estimates within bounds, and every timeout
      computed from them between two seconds and a minute. */
  lemma {:induction false} EstimatesBounded(before: Info, sec: nat, ms: seq<nat>, m: real)
    requires forall k :: 0 <= k < |ms| ==> ms[k] as real / 1000.0 <= m
    requires m >= 0.0
    ensures var i := StopAll(Init(before, sec), ms);
            && 0.0 <= i.srtt <= m
            && 0.0 <= i.rttvar <= (if m > 0.75 then m else 0.75)
            && RXTMIN <= i.rto <= RXTMAX
            && i.base == sec % 0x1_0000_0000
  {
    if ms != [] {
      EstimatesBounded(before, sec, Front(ms), m);
    }
  }

  /** The retransmission timeout after any measurements from any start (section 2 of RFC 6298): the smoothed time and
      four times its variation, but at least two seconds and at most a minute. */
  lemma TimeoutRule(i: Info, ms: seq<nat>)
    requires ms != []
    ensures var j := StopAll(i, ms); var t := j.srtt + 4.0 * j.rttvar;
            && j.rto == (if t < 2.0 then 2.0 else if t > 60.0 then 60.0 else t)
            && j.rtt == Last(ms) as real / 1000.0
            && j.nrexmt == i.nrexmt && j.base == i.base
  {
    BaseAndCountKept(i, ms);
  }

  lemma {:induction false} BaseAndCountKept(i: Info, ms: seq<nat>)
    ensures StopAll(i, ms).nrexmt == i.nrexmt && StopAll(i, ms).base == i.base
  {
    if ms != [] {
      BaseAndCountKept(i, Front(ms));
    }
  }

  /** One measurement r, from any estimates: srtt goes an eighth of the way to r, and rttvar a quarter of the way
      to the distance between the two. */
  lemma OneMeasurement(i: Info, ms: nat)
    ensures var r, j := ms as real / 1000.0, StopAll(i, [ms]);
            && 8.0 * j.srtt == 7.0 * i.srtt + r
            && 4.0 * j.rttvar == 3.0 * i.rttvar + (if r < i.srtt then i.srtt - r else r - i.srtt)
  {
    assert Front([ms]) == [];
    assert StopAll(i, [ms]) == Stop(StopAll(i, []), ms) == Stop(i, ms);
  }

  function Pow(b: real, n: nat): real { if n == 0 then 1.0 else b * Pow(b, n - 1) }

  lemma {:induction false} PowNonNegative(b: real, n: nat)
    requires b >= 0.0
    ensures Pow(b, n) >= 0.0
  {
    if n > 0 {
      PowNonNegative(b, n - 1);
      MulNonNegative(b, Pow(b, n - 1));
    }
  }

  lemma MulNonNegative(a: real, b: real)
    requires a >= 0.0 && b >= 0.0
    ensures a * b >= 0.0
  {
  }

  lemma AbsScaled(p: real, d: real)
    requires p >= 0.0
    ensures Abs(p * d) == p * Abs(d)
  {
    if d < 0.0 {
      MulNonNegative(p, -d);
      assert p * d == -(p * -d);
    } else {
      MulNonNegative(p, d);
    }
  }

  function Same(ms: nat, n: nat): seq<nat> { seq(n, _ => ms) }

  /** After n equal measurements r: srtt has closed in on r by (7/8)^n, and rttvar follows in closed form. */
  lemma {:induction false} EqualMeasurements(i: Info, ms: nat, n: nat)
    ensures var r, d := ms as real / 1000.0, ms as real / 1000.0 - i.srtt;
            var t := StopAll(i, Same(ms, n));
            && t.srtt == r - Pow(0.875, n) * d
            && t.rttvar == Pow(0.75, n) * i.rttvar + 2.0 * Abs(d) * (Pow(0.875, n) - Pow(0.75, n))
            && (n >= 1 ==>
                  var u := r - Pow(0.875, n) * d
                           + 4.0 * (Pow(0.75, n) * i.rttvar + 2.0 * Abs(d) * (Pow(0.875, n) - Pow(0.75, n)));
                  t.rto == if u < 2.0 then 2.0 else if u > 60.0 then 60.0 else u)
  {
    hide *;
    if n >= 1 {
      SomeMeasurements(ms, n);
      TimeoutRule(i, Same(ms, n));
    }
    var r, d := ms as real / 1000.0, ms as real / 1000.0 - i.srtt;
    if n == 0 {
      NoMeasurements(i, ms);
    } else {
      var p, q := Pow(0.875, n - 1), Pow(0.75, n - 1);
      OneMore(i, ms, n);
      PowNonNegative(0.875, n - 1);
      AbsScaled(p, d);
      EqualMeasurements(i, ms, n - 1);
      StepInClosedForm(StopAll(i, Same(ms, n - 1)), ms, r, d, i.rttvar, p, q);
    }
  }

  lemma SomeMeasurements(ms: nat, n: nat)
    requires n >= 1
    ensures Same(ms, n) != []
  {
  }

  lemma NoMeasurements(i: Info, ms: nat)
    ensures StopAll(i, Same(ms, 0)) == i && Pow(0.875, 0) == Pow(0.75, 0) == 1.0
  {
  }

  lemma OneMore(i: Info, ms: nat, n: nat)
    requires n > 0
    ensures StopAll(i, Same(ms, n)) == Stop(StopAll(i, Same(ms, n - 1)), ms)
    ensures Pow(0.875, n) == 0.875 * Pow(0.875, n - 1) && Pow(0.75, n) == 0.75 * Pow(0.75, n - 1)
  {
    assert Front(Same(ms, n)) == Same(ms, n - 1);
  }

  lemma StepInClosedForm(s: Info, ms: nat, r: real, d: real, v: real, p: real, q: real)
    requires r == ms as real / 1000.0 && s.srtt == r - p * d
    requires s.rttvar == q * v + 2.0 * Abs(d) * (p - q)
    requires Abs(p * d) == p * Abs(d)
    ensures Stop(s, ms).srtt == r - (0.875 * p) * d
    ensures Stop(s, ms).rttvar == (0.75 * q) * v + 2.0 * Abs(d) * (0.875 * p - 0.75 * q)
  {
    var a := Abs(d);
    assert r - s.srtt == p * d;
    assert (0.875 * p) * d == 0.875 * (p * d);
    assert 2.0 * a * (p - q) == 2.0 * (p * a) - 2.0 * (q * a);
    assert 2.0 * a * (0.875 * p - 0.75 * q) == 1.75 * (p * a) - 1.5 * (q * a);
    assert (0.75 * q) * v == 0.75 * (q * v);
  }

  // ----- the clock -----

  /** What gettimeofday gives. */
  datatype Time = Time(sec: nat, usec: nat)

  function Millis(t: Time): int { t.sec * 1000 + t.usec / 1000 }

  /** rtt_ts: a 32-bit count of milliseconds since the base second. */
  function Ts(base: int, t: Time): (ts: int)
    ensures 0 <= ts < 0x1_0000_0000
  {
    ((t.sec - base) * 1000 + t.usec / 1000) % 0x1_0000_0000
  }

  /** The 32-bit difference of two stamps. */
  function Elapsed(later: int, earlier: int): (ms: nat)
    ensures ms < 0x1_0000_0000
  {
    (later - earlier) % 0x1_0000_0000
  }

  /** Whatever the wrap, it is the clock's own difference modulo 2^32, hence exact below 2^32 ms. */
  lemma ElapsedIsClockTime(base: int, now: Time, sent: Time)
    ensures Elapsed(Ts(base, now), Ts(base, sent)) == (Millis(now) - Millis(sent)) % 0x1_0000_0000
    ensures 0 <= Millis(now) - Millis(sent) < 0x1_0000_0000 ==>
              Elapsed(Ts(base, now), Ts(base, sent)) == Millis(now) - Millis(sent)
  {
    var a, b := (now.sec - base) * 1000 + now.usec / 1000, (sent.sec - base) * 1000 + sent.usec / 1000;
    var m := 0x1_0000_0000;
    assert a - b == Millis(now) - Millis(sent);
    assert a == m * (a / m) + a % m && b == m * (b / m) + b % m;
    assert a - b == m * (a / m - b / m) + (a % m - b % m);
    ModAddMultiple(a % m - b % m, a / m - b / m);
  }

  lemma ModAddMultiple(x: int, k: int)
    ensures (0x1_0000_0000 * k + x) % 0x1_0000_0000 == x % 0x1_0000_0000
  {
  }

  // ----- the code -----

  class RttInfo {
    var rtt: real
    var srtt: real
    var rttvar: real
    var rto: real
    var nrexmt: int
    var base: int

    ghost function Val(): Info
      reads this
    {
      Info(rtt, srtt, rttvar, rto, nrexmt, base)
    }

    constructor ()
      ensures Val() == Info(0.0, 0.0, 0.0, 0.0, 0, 0)
    {
      rtt, srtt, rttvar, rto, nrexmt, base := 0.0, 0.0, 0.0, 0.0, 0, 0;
    }

    method RttInit(now: Time)
      modifies this
      ensures Val() == Init(old(Val()), now.sec) && rto == 3.0
    {
      base := now.sec % 0x1_0000_0000;
      rtt := 0.0;
      srtt := 0.0;
      rttvar := 0.75;
      rto := Minmax(RtoCalc(srtt, rttvar));
    }

    method RttNewpack()
      modifies this
      ensures Val() == NewPack(old(Val()))
    {
      nrexmt := 0;
    }

    /** The alarm time: the timeout rounded to whole seconds. */
    method RttStart() returns (seconds: int)
      requires rto >= 0.0
      ensures seconds as real - 0.5 <= rto < seconds as real + 0.5
    {
      seconds := (rto + 0.5).Floor;
    }

    method RttStop(ms: nat)
      modifies this
      ensures Val() == Stop(old(Val()), ms)
    {
      rtt := ms as real / 1000.0;
      var delta := rtt - srtt;
      srtt := srtt + delta / 8.0;
      if delta < 0.0 {
        delta := -delta;
      }
      rttvar := rttvar + (delta - rttvar) / 4.0;
      rto := Minmax(RtoCalc(srtt, rttvar));
    }

    method RttTimeout() returns (r: int)
      modifies this
      ensures Val() == Timeout(old(Val()))
      ensures r == if GivesUp(Val()) then -1 else 0
    {
      rto := rto * 2.0;
      nrexmt := nrexmt + 1;
      if nrexmt > MAXNREXMT {
        return -1;
      }
      return 0;
    }
  }
}
