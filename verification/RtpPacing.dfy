/** The pacing of a replayed RTP stream: before each packet the sender sleeps so that packets leave
    with the spacing of their capture timestamps. Time values have seconds and microseconds, which the
    timer macros add, subtract and compare with carry and borrow. */
module RtpPacing {

  const MILLION := 1000000

  datatype TimeVal = TimeVal(sec: int, usec: int) {
    /** Microseconds in range; seconds may be negative. */
    predicate Normal() { 0 <= usec < MILLION }

    function Micros(): int { sec * MILLION + usec }

    predicate IsSet() { sec != 0 || usec != 0 }
  }

  const ZERO := TimeVal(0, 0)

  function Later(a: int, b: int): int {
    if a > b then a - b else 0
  }

  // ---------- The timer macros ----------

  /** On values in normal form the macros are addition, subtraction and order of microseconds, and the
      results are in normal form again. */
  method TimerAdd(t: TimeVal, u: TimeVal) returns (v: TimeVal)
    requires t.Normal() && u.Normal()
    ensures v.Normal() && v.Micros() == t.Micros() + u.Micros()
  {
    v := TimeVal(t.sec + u.sec, t.usec + u.usec);
    if v.usec >= MILLION {
      v := TimeVal(v.sec + 1, v.usec - MILLION);
    }
  }

  method TimerSub(t: TimeVal, u: TimeVal) returns (v: TimeVal)
    requires t.Normal() && u.Normal()
    ensures v.Normal() && v.Micros() == t.Micros() - u.Micros()
  {
    v := TimeVal(t.sec - u.sec, t.usec - u.usec);
    if v.usec < 0 {
      v := TimeVal(v.sec - 1, v.usec + MILLION);
    }
  }

  predicate TimerGreater(t: TimeVal, u: TimeVal) {
    if t.sec == u.sec then t.usec > u.usec else t.sec > u.sec
  }

  lemma GreaterIsOrder(t: TimeVal, u: TimeVal)
    requires t.Normal() && u.Normal()
    ensures TimerGreater(t, u) <==> t.Micros() > u.Micros()
    ensures t.IsSet() <==> t.Micros() != 0
    ensures t.Micros() == u.Micros() ==> t == u
  {
  }

  lemma ZeroMicros()
    ensures ZERO.Micros() == 0
  {
  }

  // ---------- What the pacing amounts to ----------

  /** Whether packet k starts the count anew: the first one, and any packet after a timestamp of zero,
      which the sender takes for "no packet yet". */
  predicate Restarts(ts: seq<int>, k: nat)
    requires k < |ts|
  {
    k == 0 || ts[k - 1] == 0
  }

  /** The packet the count of packet k starts from. */
  function Base(ts: seq<int>, k: nat): (b: nat)
    requires k < |ts|
    ensures b <= k && Restarts(ts, b)
  {
    if Restarts(ts, k) then k else Base(ts, k - 1)
  }

  /** How far packet k is, in capture time, after the one its count starts from; steps back in the
      timestamps do not count. */
  function Rise(ts: seq<int>, k: nat): (r: nat)
    requires k < |ts|
  {
    if Restarts(ts, k) then 0 else Rise(ts, k - 1) + Later(ts[k], ts[k - 1])
  }

  /** The sleep to ask for before packet k, `clock` being the times of day: what is left of the way to
      its place after the packet its count starts from, nothing if it is late. */
  function Asked(ts: seq<int>, clock: seq<int>, k: nat): (micros: nat)
    requires k < |ts| == |clock|
  {
    Later(Rise(ts, k), clock[k] - clock[Base(ts, k)])
  }

  lemma Unfolded(ts: seq<int>, clock: seq<int>, k: nat)
    requires k < |ts| == |clock|
    ensures Asked(ts, clock, k) == Later(Rise(ts, k), clock[k] - clock[Base(ts, k)])
    ensures Restarts(ts, k) ==> Base(ts, k) == k && Rise(ts, k) == 0
    ensures !Restarts(ts, k) ==>
      Base(ts, k) == Base(ts, k - 1) && Rise(ts, k) == Rise(ts, k - 1) + Later(ts[k], ts[k - 1])
  {
  }

  predicate Normalised(times: seq<TimeVal>) {
    forall k :: 0 <= k < |times| ==> times[k].Normal()
  }

  function Stamps(times: seq<TimeVal>): (ts: seq<int>)
    ensures |ts| == |times| && forall k :: 0 <= k < |times| ==> ts[k] == times[k].Micros()
  {
    seq(|times|, k requires 0 <= k < |times| => times[k].Micros())
  }

  // ---------- The sender ----------

  class Sender {
    var last: TimeVal
    var didsleep: TimeVal
    var start: TimeVal

    constructor ()
      ensures last == didsleep == start == ZERO
    {
      last, didsleep, start := ZERO, ZERO, ZERO;
    }

    /** Works out how long to sleep before the packet stamped `time`, `now` being the time of day. */
    method DoSleep(time: TimeVal, now: TimeVal) returns (nap: TimeVal)
      requires time.Normal() && now.Normal() && last.Normal() && didsleep.Normal() && start.Normal()
      modifies this`didsleep, this`start
      ensures didsleep.Normal() && start.Normal() && nap.Normal()
      ensures start == if old(last).IsSet() then old(start) else now
      ensures didsleep.Micros() ==
        if old(last).IsSet() then old(didsleep).Micros() + Later(time.Micros(), last.Micros()) else 0
      ensures nap.Micros() == Later(didsleep.Micros(), now.Micros() - start.Micros())
    {
      var delta := ZERO;
      if !last.IsSet() {
        start := now;
        didsleep := ZERO;
      } else {
        delta := TimerSub(now, start);
      }
      GreaterIsOrder(time, last);
      if last.IsSet() && TimerGreater(time, last) {
        nap := TimerSub(time, last);
      } else {
        nap := ZERO;
      }
      didsleep := TimerAdd(didsleep, nap);
      GreaterIsOrder(didsleep, delta);
      if TimerGreater(didsleep, delta) {
        nap := TimerSub(didsleep, delta);
      } else {
        nap := ZERO;
      }
    }

    /** Sends the packets; `now[k]` is the time of day read before packet k, `naps[k]` the sleep
        requested for it. */
    method SendPackets(times: seq<TimeVal>, now: seq<TimeVal>) returns (naps: seq<TimeVal>)
      requires |now| == |times| && Normalised(times) && Normalised(now)
      requires last == didsleep == start == ZERO
      modifies this
      ensures |naps| == |times| && Normalised(naps)
      ensures forall k :: 0 <= k < |times| ==> naps[k].Micros() == Asked(Stamps(times), Stamps(now), k)
      ensures times != [] ==> didsleep.Micros() == Rise(Stamps(times), |times| - 1)
    {
      hide Rise, Base, Asked, TimeVal.Micros, Stamps;
      ghost var ts, clock := Stamps(times), Stamps(now);
      naps := [];
      var k := 0;
      while k < |times|
        invariant 0 <= k <= |times| && |naps| == k && Normalised(naps)
        invariant last.Normal() && didsleep.Normal() && start.Normal()
        invariant last == if k == 0 then ZERO else times[k - 1]
        invariant k > 0 ==> didsleep.Micros() == Rise(ts, k - 1) && start.Micros() == clock[Base(ts, k - 1)]
        invariant forall i :: 0 <= i < k ==> naps[i].Micros() == Asked(ts, clock, i)
      {
        ZeroMicros();
        Unfolded(ts, clock, k);
        GreaterIsOrder(last, ZERO);
        var nap := DoSleep(times[k], now[k]);
        naps := naps + [nap];
        last := times[k];
        k := k + 1;
      }
    }
  }

  // ---------- No drift ----------

  predicate Ascending(ts: seq<int>) {
    forall i, j :: 0 <= i <= j < |ts| ==> 0 <= ts[i] <= ts[j]
  }

  /** The number of zero timestamps at the front. */
  function Zeros(ts: seq<int>): (z: nat)
    ensures z <= |ts|
  {
    if ts == [] || ts[0] != 0 then 0 else 1 + Zeros(ts[1..])
  }

  lemma {:induction false} ZerosAreZero(ts: seq<int>, k: nat)
    requires Ascending(ts) && k < |ts|
    ensures ts[k] == 0 <==> k < Zeros(ts)
  {
    if ts[0] == 0 && k > 0 {
      ZerosAreZero(ts[1..], k - 1);
    }
  }

  /** For timestamps that never step back, the sender aims packet k at the capture time since the first
      packet with a timestamp other than zero: the steps telescope, so no error adds up. */
  lemma {:induction false} RiseTelescopes(ts: seq<int>, k: nat)
    requires Ascending(ts) && k < |ts|
    ensures var z := Zeros(ts);
      if k <= z then Base(ts, k) == k && Rise(ts, k) == 0
      else Base(ts, k) == z && Rise(ts, k) == ts[k] - ts[z]
  {
    if k > 0 {
      RiseTelescopes(ts, k - 1);
      ZerosAreZero(ts, k - 1);
      assert ts[k - 1] <= ts[k];
    }
  }

  /** The steps add up to the distance from the first packet, for every packet, exactly when the first
      timestamp is not zero or all of them are. */
  lemma {:induction false} RisesFromFirstIff(ts: seq<int>)
    requires Ascending(ts) && ts != []
    ensures (forall k :: 0 <= k < |ts| ==> Rise(ts, k) == ts[k] - ts[0])
            <==> ts[0] != 0 || (forall k :: 0 <= k < |ts| ==> ts[k] == 0)
  {
    forall k | 0 <= k < |ts| ensures ts[0] != 0 ==> Rise(ts, k) == ts[k] - ts[0] {
      RiseTelescopes(ts, k);
    }
    forall k | 0 <= k < |ts| ensures k < Zeros(ts) ==> Rise(ts, k) == 0 == ts[k] {
      RiseTelescopes(ts, k);
      ZerosAreZero(ts, k);
    }
    var z := Zeros(ts);
    if ts[0] == 0 && z < |ts| {
      RiseTelescopes(ts, z);
      ZerosAreZero(ts, z);
      assert Rise(ts, z) != ts[z] - ts[0];
    }
  }

  /** Times of day that do not run backwards, one for each packet. */
  predicate IsClock(ts: seq<int>, clock: seq<int>) {
    |clock| == |ts| && forall i, j :: 0 <= i <= j < |clock| ==> clock[i] <= clock[j]
  }

  /** The sleep asked for before packet k aims at its distance from the first packet, counted from the
      moment the first packet was due. */
  predicate FromFirst(ts: seq<int>, clock: seq<int>, k: nat)
    requires k < |ts| == |clock|
  {
    Asked(ts, clock, k) == Later(ts[k] - ts[0], clock[k] - clock[0])
  }

  /** That is so on every clock and for every packet exactly when the first timestamp is not zero or all
      of them are. */
  lemma PacedFromFirstIff(ts: seq<int>)
    requires Ascending(ts) && ts != []
    ensures (forall clock, k :: IsClock(ts, clock) && 0 <= k < |ts| ==> FromFirst(ts, clock, k))
            <==> ts[0] != 0 || (forall k :: 0 <= k < |ts| ==> ts[k] == 0)
  {
    forall clock, k | IsClock(ts, clock) && 0 <= k < |ts|
      ensures ts[0] != 0 || (forall j :: 0 <= j < |ts| ==> ts[j] == 0) ==> FromFirst(ts, clock, k)
    {
      RiseTelescopes(ts, k);
      ZerosAreZero(ts, k);
    }
    var z := Zeros(ts);
    if ts[0] == 0 && z < |ts| {
      RiseTelescopes(ts, z);
      ZerosAreZero(ts, z);
      var clock := seq(|ts|, _ => 0);
      assert IsClock(ts, clock) && !FromFirst(ts, clock, z);
    } else if ts[0] == 0 {
      forall k | 0 <= k < |ts| ensures ts[k] == 0 {
        ZerosAreZero(ts, k);
      }
    }
  }

  /** A first timestamp of zero: the second packet, due 5 microseconds later, is not held back at all. */
  lemma ZeroTimestampLosesAStep()
    ensures Asked([0, 5], [0, 0], 1) == 0 && !FromFirst([0, 5], [0, 0], 1)
  {
  }

  /** In any stream: a packet stamped no later than the one before is aimed where that one was, and one
      stamped later that much further on. */
  lemma StepsAddUp(ts: seq<int>, k: nat)
    requires 0 < k < |ts| && ts[k - 1] != 0
    ensures Base(ts, k) == Base(ts, k - 1)
    ensures Rise(ts, k) - Rise(ts, k - 1) == if ts[k] <= ts[k - 1] then 0 else ts[k] - ts[k - 1]
  {
  }

  /** A sender that sleeps at least as long as asked never lets a packet out ahead of its capture time;
      one that sleeps exactly as long lets it out on time unless it is already late. */
  lemma NeverEarly(ts: seq<int>, k: nat, now: seq<int>, out: int)
    requires Ascending(ts) && ts != [] && ts[0] != 0 && k < |ts| == |now|
    requires out >= now[k] + Asked(ts, now, k)
    ensures out - now[0] >= ts[k] - ts[0]
    ensures out == now[k] + Asked(ts, now, k) ==>
      out == if now[k] - now[0] < ts[k] - ts[0] then now[0] + (ts[k] - ts[0]) else now[k]
  {
    RiseTelescopes(ts, k);
  }
}
