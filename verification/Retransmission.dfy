/** The UDP retransmission timer of a call: armed when a message with a retransmission delay goes
    out, doubled on every resend, stopped by the answer. Ticks are milliseconds and, like the delays,
    32-bit unsigned numbers that wrap. */
module Retransmission {

  const WORD: nat := 0x1_0000_0000

  /** Timer T2, the three limits of the command line, whether the message has a time-out label to jump to,
      and whether the transport retransmits at all (UDP, with retransmission enabled). */
  datatype Config = Config(t2: nat, maxInvite: int, maxNonInvite: int, maxUdp: int, jumps: bool, udp: bool)

  /** `next` is the tick after which to resend, 0 when the timer is off. `delays` lists the delays set
      by the resends of the current message, oldest first. `sent` counts the messages that went out
      for the first time. `over` says that the call was aborted or deleted. */
  datatype State = State(next: nat, nb: nat, delay: nat, invite: bool, delays: seq<nat>, sent: nat, over: bool)

  datatype Response = Request(name: string) | Reply(code: nat, cseqMethod: string)

  /** What can happen to the timer, each with the tick at which it does. `Receive` carries whether the
      matched scenario entry lies behind the last one sent. */
  datatype Event =
    | Transmit(now: nat, delay: nat, invite: bool)
    | Run(now: nat)
    | Receive(now: nat, what: Response, behind: bool)

  function Wrap(x: nat): nat {
    x % WORD
  }

  function Min(a: int, b: int): int {
    if a < b then a else b
  }

  function Max0(x: int): nat {
    if x < 0 then 0 else x
  }

  function Allowed(c: Config, invite: bool): int {
    Min(if invite then c.maxInvite else c.maxNonInvite, c.maxUdp)
  }

  // ---------- One step ----------

  function Transmitted(c: Config, s: State, now: nat, delay: nat, invite: bool): State {
    if s.over || s.next != 0 then s
    else if delay != 0 && c.udp then State(Wrap(now + delay), 0, delay, invite, [], s.sent + 1, false)
    else s.(invite := invite, delays := [], sent := s.sent + 1)
  }

  function Doubled(c: Config, invite: bool, delay: nat): nat {
    var twice := Wrap(2 * delay);
    if c.t2 < twice && !invite then c.t2 else twice
  }

  function Ran(c: Config, s: State, now: nat): State {
    if s.over || s.next == 0 || now <= s.next then s
    else if s.nb + 1 > Allowed(c, s.invite) then
      if c.jumps then s.(next := 0, nb := s.nb + 1) else s.(nb := s.nb + 1, over := true)
    else
      var delay := Doubled(c, s.invite, s.delay);
      s.(next := Wrap(now + delay), nb := s.nb + 1, delay := delay, delays := s.delays + [delay])
  }

  /** Requests and replies that may stop the timer. */
  predicate Relevant(what: Response) {
    match what
    case Request(m) => m == "ACK" || m == "CANCEL" || m == "BYE" || m == "PRACK"
    case Reply(code, _) => code != 0
  }

  /** A reply is taken to answer an INVITE when its CSeq method is a prefix of that word. */
  predicate Stops(what: Response) {
    what.Request? || what.code >= 200 || what.cseqMethod <= "INVITE"
  }

  function Received(c: Config, s: State, now: nat, what: Response, behind: bool): State {
    if s.over || !behind || !Relevant(what) then s
    else if Stops(what) then s.(next := 0)
    else s.(next := Wrap(now + c.t2), delay := c.t2)
  }

  function Step(c: Config, s: State, e: Event): State {
    match e
    case Transmit(now, delay, invite) => Transmitted(c, s, now, delay, invite)
    case Run(now) => Ran(c, s, now)
    case Receive(now, what, behind) => Received(c, s, now, what, behind)
  }

  function Steps(c: Config, s: State, events: seq<Event>): State
    decreases |events|
  {
    if events == [] then s
    else Step(c, Steps(c, s, events[..|events| - 1]), events[|events| - 1])
  }

  // ---------- The call's fields ----------

  class Timer {
    var nextRetrans: nat
    var nbRetrans: nat
    var nbLastDelay: nat
    var lastIsInvite: bool
    var nbSent: nat
    var deleted: bool
    ghost var delays: seq<nat>

    ghost function View(): State
      reads this
    {
      State(nextRetrans, nbRetrans, nbLastDelay, lastIsInvite, delays, nbSent, deleted)
    }

    constructor ()
      ensures View() == State(0, 0, 0, false, [], 0, false)
    {
      nextRetrans, nbRetrans, nbLastDelay, lastIsInvite, nbSent, deleted, delays := 0, 0, 0, false, 0, false, [];
    }

    /** The timer's share of sending a scenario entry. */
    method ExecuteSend(c: Config, now: nat, retransDelay: nat, isInvite: bool) returns (done: bool)
      requires !deleted
      modifies this
      ensures View() == Transmitted(c, old(View()), now, retransDelay, isInvite)
      ensures done <==> old(nextRetrans) == 0
    {
      if nextRetrans != 0 {
        return false;
      }
      lastIsInvite, nbSent, delays := isInvite, nbSent + 1, [];
      if retransDelay != 0 {
        if c.udp {
          nextRetrans := Wrap(now + retransDelay);
          nbRetrans := 0;
          nbLastDelay := retransDelay;
        }
      } else {
        nextRetrans := 0;
      }
      return true;
    }

    /** The timer's share of running the call. */
    method Run(c: Config, now: nat) returns (resent: bool)
      requires !deleted
      modifies this
      ensures View() == Ran(c, old(View()), now)
      ensures resent <==> |View().delays| == |old(View()).delays| + 1
    {
      resent := false;
      if nextRetrans != 0 && nextRetrans < now {
        nbRetrans := nbRetrans + 1;
        var rtAllowed := Min(if lastIsInvite then c.maxInvite else c.maxNonInvite, c.maxUdp);
        if nbRetrans > rtAllowed {
          if c.jumps {
            nextRetrans := 0;
          } else {
            deleted := true;
          }
        } else {
          nbLastDelay := Wrap(nbLastDelay * 2);
          if c.t2 < nbLastDelay {
            if !lastIsInvite {
              nbLastDelay := c.t2;
            }
          }
          resent := true;
          nextRetrans := Wrap(now + nbLastDelay);
          delays := delays + [nbLastDelay];
        }
      }
    }

    /** The timer's share of an incoming message that matched a scenario entry. */
    method ProcessIncoming(c: Config, now: nat, what: Response, behind: bool)
      requires !deleted
      modifies this
      ensures View() == Received(c, old(View()), now, what, behind)
    {
      if Relevant(what) && behind {
        if what.Request? || 200 <= what.code || what.cseqMethod <= "INVITE" {
          nextRetrans := 0;
        } else {
          nextRetrans := Wrap(now + c.t2);
          nbLastDelay := c.t2;
        }
      }
    }
  }

  // ---------- The back-off ----------

  function Pow2(k: nat): nat {
    if k == 0 then 1 else 2 * Pow2(k - 1)
  }

  /** The timers of RFC 3261: timer A doubles, timer E doubles up to T2. Entry 0 is the first wait. */
  function Backoff(c: Config, invite: bool, d: nat, k: nat): nat {
    if invite || k == 0 then d * Pow2(k) else Min(d * Pow2(k), c.t2)
  }

  lemma Pow2Positive(k: nat)
    ensures Pow2(k) >= 1
  {
  }

  lemma WrapDouble(x: nat)
    ensures Wrap(2 * Wrap(x)) == Wrap(2 * x)
  {
    var q, r := x / WORD, x % WORD;
    assert 2 * x == 2 * r + (2 * q) * WORD;
    assert Wrap(2 * r + (2 * q) * WORD) == Wrap(2 * r) by {
      AddMultiple(2 * r, 2 * q);
    }
  }

  lemma AddMultiple(x: nat, q: nat)
    ensures Wrap(x + q * WORD) == Wrap(x)
  {
  }

  lemma {:induction false} Pow2Monotone(j: nat, k: nat)
    requires j <= k
    ensures Pow2(j) <= Pow2(k)
  {
    if j < k {
      Pow2Monotone(j, k - 1);
    }
  }

  /** No reply and no request that touches the timer. */
  predicate Quiet(e: Event) {
    e.Receive? ==> !e.behind || !Relevant(e.what)
  }

  /** The timer stays on all along: no time-out label has been jumped to. */
  ghost predicate StaysOn(c: Config, s: State, events: seq<Event>) {
    forall i {:trigger events[..i]} :: 0 <= i <= |events| ==> Steps(c, s, events[..i]).next != 0
  }

  /** A message with delay d has just armed the timer. */
  predicate JustArmed(s: State, d: nat) {
    s.next != 0 && s.nb == 0 && s.delays == [] && s.delay == d && !s.over
  }

  /** Sending a message with a delay over UDP is how it gets there. */
  lemma SendArms(c: Config, s: State, now: nat, delay: nat, invite: bool)
    requires !s.over && s.next == 0 && c.udp && delay != 0 && now + delay < WORD
    ensures var t := Transmitted(c, s, now, delay, invite);
      JustArmed(t, delay) && t.next == now + delay && t.invite == invite && t.sent == s.sent + 1
  {
  }

  /** A delay fits a word; that of a non-INVITE, and T2, can also be doubled in one. */
  predicate Small(c: Config, invite: bool, d: nat) {
    d < WORD && (invite || (d < WORD / 2 && c.t2 < WORD / 2))
  }

  /** The delay in force after k resends. */
  function Set(c: Config, invite: bool, d: nat, k: nat): nat {
    if invite then Wrap(d * Pow2(k)) else Backoff(c, false, d, k)
  }

  /** Every resend so far set the delay of the back-off, and there were no more than allowed; a call
      that was given up had them all. */
  predicate BackedOff(c: Config, s: State, d: nat) {
    && s.nb == |s.delays| + (if s.over then 1 else 0)
    && s.delay == Set(c, s.invite, d, |s.delays|)
    && (forall k :: 0 <= k < |s.delays| ==> s.delays[k] == Set(c, s.invite, d, k + 1))
    && (|s.delays| > 0 ==> |s.delays| <= Allowed(c, s.invite))
    && (s.over ==> |s.delays| >= Allowed(c, s.invite))
  }

  lemma DoubleCapped(c: Config, x: nat, uncapped: bool)
    requires c.t2 < WORD / 2 && (uncapped ==> x < WORD / 2)
    ensures Doubled(c, false, if uncapped then x else Min(x, c.t2)) == Min(2 * x, c.t2)
  {
  }

  lemma {:induction false} BackoffStep(c: Config, invite: bool, d: nat, k: nat)
    requires Small(c, invite, d)
    ensures Doubled(c, invite, Set(c, invite, d, k)) == Set(c, invite, d, k + 1)
  {
    var x := d * Pow2(k);
    assert d * Pow2(k + 1) == 2 * x;
    if invite {
      WrapDouble(x);
    } else {
      assert k == 0 ==> x == d;
      hide Pow2, Doubled, Wrap;
      DoubleCapped(c, x, k == 0);
    }
  }

  lemma QuietStep(c: Config, r: State, d: nat, e: Event)
    requires Small(c, r.invite, d) && BackedOff(c, r, d) && Quiet(e)
    requires r.next != 0 && Step(c, r, e).next != 0
    ensures var t := Step(c, r, e); BackedOff(c, t, d) && t.invite == r.invite && t.sent == r.sent
  {
    BackoffStep(c, r.invite, d, |r.delays|);
  }

  /** A run of events with the timer on all along, taken apart at its last event. */
  lemma LastStep(c: Config, s: State, events: seq<Event>)
    requires events != [] && StaysOn(c, s, events)
    ensures var n := |events| - 1;
      && StaysOn(c, s, events[..n])
      && Steps(c, s, events) == Step(c, Steps(c, s, events[..n]), events[n])
      && Steps(c, s, events[..n]).next != 0 && Steps(c, s, events).next != 0
  {
    var n := |events| - 1;
    forall i | 0 <= i <= n ensures Steps(c, s, events[..n][..i]).next != 0 {
      assert events[..n][..i] == events[..i];
    }
    assert events[..n + 1] == events;
  }

  /** From the moment a message arms the timer, and for as long as nothing answers it: no further
      message goes out for the first time, the k-th resend sets the k-th delay of the back-off, and
      the resends stop at the limit. For an INVITE that delay is d * 2^k in 32-bit arithmetic. */
  lemma {:induction false} BackoffWhileArmed(c: Config, s: State, d: nat, events: seq<Event>)
    requires JustArmed(s, d) && Small(c, s.invite, d) && StaysOn(c, s, events)
    requires forall e :: e in events ==> Quiet(e)
    ensures var r := Steps(c, s, events); BackedOff(c, r, d) && r.invite == s.invite && r.sent == s.sent
    decreases |events|
  {
    if events == [] {
      assert d * Pow2(0) == d;
    } else {
      var n := |events| - 1;
      LastStep(c, s, events);
      BackoffWhileArmed(c, s, d, events[..n]);
      assert events[n] in events;
      QuietStep(c, Steps(c, s, events[..n]), d, events[n]);
    }
  }

  // ---------- The time it takes to give up ----------

  /** Ticks from the first transmission to the moment resend k + 1 falls due, one tick lost a resend. */
  function Waited(c: Config, invite: bool, d: nat, k: nat): nat {
    Backoff(c, invite, d, k) + if k == 0 then 0 else Waited(c, invite, d, k - 1) + 1
  }

  lemma {:induction false} InviteWaits(c: Config, d: nat, k: nat)
    ensures Waited(c, true, d, k) == d * (Pow2(k + 1) - 1) + k
  {
    if k == 0 {
      assert Pow2(1) == 2 * Pow2(0) == 2;
      assert Waited(c, true, d, 0) == d * Pow2(0) == d;
    } else {
      InviteWaits(c, d, k - 1);
      var p: int := Pow2(k);
      assert Pow2(k + 1) == 2 * p;
      assert d * (2 * p - 1) == d * p + d * (p - 1);
    }
  }

  function Longest(c: Config, invite: bool, d: nat): nat {
    if invite then d * Pow2(Max0(Allowed(c, true))) else d + c.t2
  }

  /** Ticks that do not run backwards, start at `from`, and leave room for the longest delay. */
  predicate Clocked(events: seq<Event>, from: nat, room: nat) {
    && (forall i, j :: 0 <= i < j < |events| ==> events[i].now <= events[j].now)
    && (forall i :: 0 <= i < |events| ==> from <= events[i].now && events[i].now + room < WORD)
  }

  lemma {:induction false} SetIsBackoff(c: Config, invite: bool, d: nat, k: nat)
    requires Small(c, invite, d) && Longest(c, invite, d) < WORD
    requires k == 0 || k <= Allowed(c, invite)
    ensures Set(c, invite, d, k) == Backoff(c, invite, d, k) <= Longest(c, invite, d)
  {
    if invite {
      var n := Max0(Allowed(c, true));
      Pow2Monotone(k, n);
      var p, q := Pow2(k), Pow2(n);
      assert d * p <= d * q;
    } else {
      Pow2Positive(k);
      assert d * Pow2(0) == d;
    }
  }

  /** Where the timer stands: the next resend is not due before the whole back-off so far. */
  predicate Due(c: Config, r: State, d: nat, from: nat) {
    r.next >= from + Waited(c, r.invite, d, |r.delays|)
  }

  lemma DueStep(c: Config, r: State, d: nat, from: nat, e: Event)
    requires Small(c, r.invite, d) && BackedOff(c, r, d) && Quiet(e) && Due(c, r, d, from)
    requires r.next != 0 && Step(c, r, e).next != 0
    requires e.now + Longest(c, r.invite, d) < WORD
    ensures var t := Step(c, r, e);
      Due(c, t, d, from) && (t.over && !r.over ==> e.now > from + Waited(c, r.invite, d, |t.delays|))
  {
    hide Waited, Set, Backoff, Longest, Pow2;
    var t := Step(c, r, e);
    QuietStep(c, r, d, e);
    if |t.delays| > |r.delays| {
      SetIsBackoff(c, r.invite, d, |t.delays|);
      assert t.next == e.now + t.delay;
      WaitedNext(c, r.invite, d, |r.delays|);
    }
  }

  lemma WaitedNext(c: Config, invite: bool, d: nat, k: nat)
    ensures Waited(c, invite, d, k + 1) == Backoff(c, invite, d, k + 1) + Waited(c, invite, d, k) + 1
  {
  }

  /** While nothing answers, no resend falls due before the whole back-off so far has passed. */
  lemma {:induction false} NeverDueEarly(c: Config, s: State, d: nat, from: nat, events: seq<Event>)
    requires JustArmed(s, d) && Small(c, s.invite, d) && StaysOn(c, s, events) && s.next == from + d
    requires forall e :: e in events ==> Quiet(e)
    requires Clocked(events, from, Longest(c, s.invite, d))
    ensures var r := Steps(c, s, events); Due(c, r, d, from)
    ensures var r := Steps(c, s, events); r.over ==>
        events != [] && events[|events| - 1].now > from + Waited(c, s.invite, d, |r.delays|)
    decreases |events|
  {
    if events == [] {
      assert d * Pow2(0) == d;
    } else {
      hide Waited, Longest, Set, BackedOff, Small, Step, Due, Quiet;
      var n := |events| - 1;
      LastStep(c, s, events);
      NeverDueEarly(c, s, d, from, events[..n]);
      BackoffWhileArmed(c, s, d, events[..n]);
      assert events[n] in events;
      DueStep(c, Steps(c, s, events[..n]), d, from, events[n]);
    }
  }

  /** A message is given up, by ending the call or by a jump to its time-out label, when a look at the
      timer is counted but resends nothing. */
  predicate GivenUp(s: State) {
    s.nb > |s.delays|
  }

  lemma GiveUpStep(c: Config, r: State, d: nat, from: nat, now: nat)
    requires BackedOff(c, r, d) && Due(c, r, d, from) && r.next != 0
    requires r.over ==> now > from + Waited(c, r.invite, d, |r.delays|)
    requires GivenUp(Ran(c, r, now))
    ensures var n := |Ran(c, r, now).delays|; n == Max0(Allowed(c, r.invite)) && now > from + Waited(c, r.invite, d, n)
  {
    hide Waited, Set;
  }

  lemma RunLast(c: Config, s: State, from: nat, events: seq<Event>, now: nat, room: nat)
    requires Clocked(events + [Run(now)], from, room)
    ensures Steps(c, s, events + [Run(now)]) == Ran(c, Steps(c, s, events), now)
    ensures Clocked(events, from, room) && (events != [] ==> events[|events| - 1].now <= now)
  {
    var all := events + [Run(now)];
    assert all[..|events|] == events && all[|events|] == Run(now);
    assert forall i :: 0 <= i < |events| ==> all[i] == events[i];
  }

  /** However it is given up, the message has seen all its resends and the wait after the last one.
      The timer need not be on after the look at tick `now`: the jump turns it off. */
  lemma NeverGivesUpEarly(c: Config, s: State, d: nat, from: nat, events: seq<Event>, now: nat)
    requires JustArmed(s, d) && Small(c, s.invite, d) && StaysOn(c, s, events) && s.next == from + d
    requires forall e :: e in events ==> Quiet(e)
    requires Clocked(events + [Run(now)], from, Longest(c, s.invite, d))
    requires GivenUp(Steps(c, s, events + [Run(now)]))
    ensures var n := |Steps(c, s, events + [Run(now)]).delays|;
      n == Max0(Allowed(c, s.invite)) && now > from + Waited(c, s.invite, d, n)
  {
    hide Waited, Longest, Set, Small, Quiet, Steps, Clocked, Ran, GivenUp, Due, BackedOff;
    assert Steps(c, s, events).next != 0 by {
      assert events[..|events|] == events;
    }
    RunLast(c, s, from, events, now, Longest(c, s.invite, d));
    BackoffWhileArmed(c, s, d, events);
    NeverDueEarly(c, s, d, from, events);
    GiveUpStep(c, Steps(c, s, events), d, from, now);
  }

  /** Section 17.1.1.2 of RFC 3261: an INVITE with limit n is given up only after more than
      d * (2^(n+1) - 1) ticks, all n resends made. */
  lemma InviteGivesUp(c: Config, s: State, d: nat, from: nat, events: seq<Event>, now: nat)
    requires JustArmed(s, d) && s.invite && d < WORD && StaysOn(c, s, events) && s.next == from + d
    requires forall e :: e in events ==> Quiet(e)
    requires Clocked(events + [Run(now)], from, Longest(c, true, d))
    requires GivenUp(Steps(c, s, events + [Run(now)]))
    ensures var n := Max0(Allowed(c, true));
      && |Steps(c, s, events + [Run(now)]).delays| == n
      && now > from + d * (Pow2(n + 1) - 1) + n
  {
    hide Waited, Steps, Longest;
    NeverGivesUpEarly(c, s, d, from, events, now);
    InviteWaits(c, d, Max0(Allowed(c, true)));
  }

  // ---------- Provisional replies ----------

  /** Nothing answers the message for good: at most provisional replies to a non-INVITE come in. */
  predicate Unanswered(e: Event) {
    e.Receive? && e.behind && Relevant(e.what) ==> !Stops(e.what)
  }

  /** After a provisional reply a non-INVITE keeps being resent every T2, for as long as no final
      response comes. */
  lemma {:induction false} ProvisionalPinsT2(c: Config, s: State, events: seq<Event>)
    requires !s.invite && s.delay == c.t2 < WORD / 2 && StaysOn(c, s, events)
    requires forall e :: e in events ==> Unanswered(e)
    ensures var r := Steps(c, s, events);
      && !r.invite && r.delay == c.t2 && r.sent == s.sent
      && |r.delays| >= |s.delays| && forall k :: |s.delays| <= k < |r.delays| ==> r.delays[k] == c.t2
    decreases |events|
  {
    if events != [] {
      var n := |events| - 1;
      LastStep(c, s, events);
      ProvisionalPinsT2(c, s, events[..n]);
      assert events[n] in events;
    }
  }

  predicate Arms(c: Config, e: Event) {
    match e
    case Transmit(now, delay, _) => delay != 0 && c.udp && Wrap(now + delay) != 0
    case Run(_) => false
    case Receive(now, what, behind) =>
      behind && what.Reply? && 0 < what.code < 200 && !(what.cseqMethod <= "INVITE") && Wrap(now + c.t2) != 0
  }

  ghost predicate StaysOff(c: Config, s: State, events: seq<Event>) {
    forall i {:trigger events[..i]} :: 0 <= i <= |events| ==> Steps(c, s, events[..i]).next == 0
  }

  lemma OffStep(c: Config, r: State, e: Event)
    requires r.next == 0 && !r.over
    ensures Step(c, r, e).next == 0 <==> !Arms(c, e)
    ensures !Step(c, r, e).over
  {
  }

  /** A stopped timer stays off, whatever comes, exactly when no event arms it: a retransmittable
      message does, but so does a late provisional reply to anything but an INVITE. */
  lemma {:induction false} OffUntilArmed(c: Config, s: State, events: seq<Event>)
    requires s.next == 0 && !s.over
    ensures StaysOff(c, s, events) <==> (forall e :: e in events ==> !Arms(c, e))
    ensures StaysOff(c, s, events) ==> !Steps(c, s, events).over
    decreases |events|
  {
    hide Arms, Step;
    if events != [] {
      var n := |events| - 1;
      var early := events[..n];
      OffUntilArmed(c, s, early);
      assert forall i :: 0 <= i <= n ==> early[..i] == events[..i];
      assert events[..n + 1] == events && early[..n] == early;
      assert events == early + [events[n]];
      assert StaysOff(c, s, events) <==> StaysOff(c, s, early) && Steps(c, s, events).next == 0;
      if StaysOff(c, s, early) {
        OffStep(c, Steps(c, s, early), events[n]);
      }
    }
  }

  /** What answers a message: a final reply; a provisional one to an INVITE, told by a CSeq method that
      "INVITE" begins with; an ACK, CANCEL, BYE or PRACK. */
  predicate Answers(what: Response) {
    match what
    case Request(name) => name in {"ACK", "CANCEL", "BYE", "PRACK"}
    case Reply(code, cseq) => code >= 200 || (0 < code && cseq == "INVITE"[..Min(|cseq|, 6)])
  }

  /** An answer to the last message sent turns the timer off, whatever it was set to. Other requests, and
      anything matched at or before that message, leave it alone. A provisional reply to another method
      sets it to T2 from now, and T2 as the delay. */
  lemma AnswerStopsTheTimer(c: Config, s: State, now: nat, what: Response, behind: bool)
    requires !s.over
    ensures var t := Step(c, s, Receive(now, what, behind));
      && (behind && Answers(what) ==> t == s.(next := 0))
      && (!behind || (what.Request? && !Answers(what)) ==> t == s)
      && (behind && what.Reply? && 0 < what.code < 200 && !Answers(what) ==>
            t == s.(next := (now + c.t2) % 0x1_0000_0000, delay := c.t2))
  {
    if what.Reply? {
      PrefixOfInvite(what.cseqMethod);
    }
  }

  lemma PrefixOfInvite(name: string)
    ensures name <= "INVITE" <==> name == "INVITE"[..Min(|name|, 6)]
  {
  }

  /** With the timer off nothing is resent, and the next message goes out, arming the timer anew if it
      has a delay and goes over UDP. */
  lemma OffIsQuiet(c: Config, s: State, now: nat, delay: nat, invite: bool)
    requires !s.over && s.next == 0
    ensures Step(c, s, Run(now)) == s
    ensures var t := Step(c, s, Transmit(now, delay, invite));
      && t.sent == s.sent + 1 && t.invite == invite && t.delays == [] && !t.over
      && t.next == if delay > 0 && c.udp then (now + delay) % 0x1_0000_0000 else 0
  {
  }

  lemma {:induction false} NothingResentWhileOff(c: Config, s: State, events: seq<Event>)
    requires s.next == 0 && !s.over && forall e :: e in events ==> !Arms(c, e) && !e.Transmit?
    ensures var r := Steps(c, s, events); r.next == 0 && !r.over && r.delays == s.delays && r.sent == s.sent
    decreases |events|
  {
    if events != [] {
      var n := |events| - 1;
      NothingResentWhileOff(c, s, events[..n]);
      assert events[n] in events;
    }
  }

  /** From an answer on, for as long as nothing arms the timer again, no message is resent, and the next
      one goes out. */
  lemma AnsweredThenFree(c: Config, s: State, at: nat, what: Response, events: seq<Event>,
          now: nat, delay: nat, invite: bool)
    requires !s.over && Answers(what) && forall e :: e in events ==> !Arms(c, e) && !e.Transmit?
    ensures var r := Steps(c, Step(c, s, Receive(at, what, true)), events);
      && r.delays == s.delays && r.sent == s.sent
      && Step(c, r, Transmit(now, delay, invite)).sent == s.sent + 1
  {
    hide Step, Steps;
    AnswerStopsTheTimer(c, s, at, what, true);
    NothingResentWhileOff(c, Step(c, s, Receive(at, what, true)), events);
    OffIsQuiet(c, Steps(c, Step(c, s, Receive(at, what, true)), events), now, delay, invite);
  }

  /** What becomes of a message that is given up: without a time-out label the call is over and does
      nothing more; with one the timer is off and the call goes on. */
  lemma GivenUpMeans(c: Config, s: State, now: nat)
    requires !s.over && 0 < s.next < now && s.nb >= Allowed(c, s.invite)
    ensures var t := Step(c, s, Run(now));
      t.delays == s.delays && t.sent == s.sent && (if c.jumps then t.next == 0 && !t.over else t.over)
    ensures !c.jumps ==> forall e :: Step(c, Step(c, s, Run(now)), e) == Step(c, s, Run(now))
  {
  }

  /** Up to the tick it is set to, the timer waits. */
  lemma NotYetDue(c: Config, s: State, now: nat)
    requires now <= s.next
    ensures Step(c, s, Run(now)) == s
  {
  }

  /** The limit is the smaller one of the method's and the general one. */
  lemma LimitIs(c: Config, s: State, now: nat)
    requires !s.over && 0 < s.next < now && s.nb == |s.delays|
    ensures var n := if s.invite then c.maxInvite else c.maxNonInvite;
      |Step(c, s, Run(now)).delays| == |s.delays| + 1 <==> |s.delays| < n && |s.delays| < c.maxUdp
  {
  }

  /** Even where nothing is retransmitted, over TCP, a provisional reply to a BYE starts the timer,
      and the next look at it resends the last message. */
  lemma ProvisionalStartsTheTimer()
    ensures var c := Config(4000, 5, 10, 10, false, false);
      var s := State(0, 0, 0, false, [], 1, false);
      Steps(c, s, [Receive(100, Reply(100, "BYE"), true), Run(4101)]).delays == [4000]
  {
    var c := Config(4000, 5, 10, 10, false, false);
    var s := State(0, 0, 0, false, [], 1, false);
    var first, second := Receive(100, Reply(100, "BYE"), true), Run(4101);
    assert "BYE"[0] != "INVITE"[0];
    assert [first, second][..1] == [first] && [first][..0] == [];
    assert Steps(c, s, []) == s;
    assert Steps(c, s, [first]).next == 4100 && Steps(c, s, [first]).delay == 4000;
  }

  /** The ticks at which a call that is woken on time looks at its timer. */
  function WakeUps(c: Config, invite: bool, d: nat, from: nat, m: nat): (events: seq<Event>)
    ensures |events| == m
    ensures m > 0 ==> events[m - 1].now == from + Waited(c, invite, d, m - 1) + 1
  {
    if m == 0 then [] else WakeUps(c, invite, d, from, m - 1) + [Run(from + Waited(c, invite, d, m - 1) + 1)]
  }

  lemma LastWakeUp(c: Config, s: State, invite: bool, d: nat, from: nat, m: nat)
    requires m > 0
    ensures Steps(c, s, WakeUps(c, invite, d, from, m))
            == Ran(c, Steps(c, s, WakeUps(c, invite, d, from, m - 1)), from + Waited(c, invite, d, m - 1) + 1)
  {
  }

  /** Where a call woken on time stands after m wake-ups: m resends made and the next one due, or,
      one wake-up past the limit, given up with all of them made, the call over or the timer off. */
  predicate OnTime(c: Config, r: State, d: nat, from: nat, m: nat) {
    && r.nb == m
    && GivenUp(r) == (m == Allowed(c, r.invite) + 1)
    && |r.delays| == (if GivenUp(r) then m - 1 else m)
    && r.over == (GivenUp(r) && !c.jumps)
    && (GivenUp(r) && c.jumps ==> r.next == 0)
    && (!GivenUp(r) ==> r.next == from + Waited(c, r.invite, d, m) && r.delay == Set(c, r.invite, d, m))
  }

  lemma WakeUp(c: Config, r: State, d: nat, from: nat, m: nat)
    requires Small(c, r.invite, d) && 0 < m <= Allowed(c, r.invite) + 1
    requires from + Waited(c, r.invite, d, m) + Longest(c, r.invite, d) < WORD
    requires OnTime(c, r, d, from, m - 1) && from + Waited(c, r.invite, d, m - 1) != 0
    ensures var t := Ran(c, r, from + Waited(c, r.invite, d, m - 1) + 1);
      OnTime(c, t, d, from, m) && t.invite == r.invite
  {
    hide Waited, Set, Backoff, Longest, Doubled, Small, Allowed, Pow2;
    BackoffStep(c, r.invite, d, m - 1);
    WaitedNext(c, r.invite, d, m - 1);
    if m <= Allowed(c, r.invite) {
      SetIsBackoff(c, r.invite, d, m);
      assert Ran(c, r, r.next + 1).next == Wrap(r.next + 1 + Set(c, r.invite, d, m));
    }
  }

  /** The bound is exact: woken one tick after each due time, the call resends every time up to the
      limit and gives up at the next wake-up, for a limit that is not negative. */
  lemma {:induction false} GivesUpOnTime(c: Config, s: State, d: nat, from: nat, m: nat)
    requires JustArmed(s, d) && Small(c, s.invite, d) && s.next == from + d && d != 0
    requires m <= Allowed(c, s.invite) + 1 && Allowed(c, s.invite) >= 0
    requires from + Waited(c, s.invite, d, m) + Longest(c, s.invite, d) < WORD
    ensures var r := Steps(c, s, WakeUps(c, s.invite, d, from, m));
      OnTime(c, r, d, from, m) && r.invite == s.invite
  {
    hide *;
    if m == 0 {
      OnTimeAtFirst(c, s, d, from);
    } else {
      WaitedNext(c, s.invite, d, m - 1);
      WaitedLeast(c, s.invite, d, m - 1);
      GivesUpOnTime(c, s, d, from, m - 1);
      LastWakeUp(c, s, s.invite, d, from, m);
      WakeUp(c, Steps(c, s, WakeUps(c, s.invite, d, from, m - 1)), d, from, m);
    }
  }

  lemma OnTimeAtFirst(c: Config, s: State, d: nat, from: nat)
    requires JustArmed(s, d) && Small(c, s.invite, d) && s.next == from + d && Allowed(c, s.invite) >= 0
    ensures Steps(c, s, WakeUps(c, s.invite, d, from, 0)) == s && OnTime(c, s, d, from, 0)
  {
  }

  lemma WaitedLeast(c: Config, invite: bool, d: nat, k: nat)
    ensures Waited(c, invite, d, k) >= d
  {
  }
}
