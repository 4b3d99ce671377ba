/** The generator that opens outgoing calls, in rate mode (so many calls a period) or in user mode (so many
    calls at a time, each with a user id from a pool). Rates are real numbers; the times at which the
    source reads the clock are parameters. */
module OpenTask {

  /** Numbers that the source mixes with unsigned 64-bit counters wrap at this value. */
  const WORD: nat := 0x1_0000_0000_0000_0000

  /** `users` is -1 in rate mode. `calls` counts the calls made since the last change of rate.
      `free` and `retired` are the two lists of user ids, `active` the ids of the live calls. */
  datatype State = State(total: nat, current: nat, stopAfter: nat, openAllowed: nat, openIsUserSet: bool,
                         users: int, rate: real, lastChange: nat, calls: nat,
                         free: seq<int>, retired: seq<int>, active: multiset<int>, paused: bool, quitting: bool)

  // ---------- How many calls to open ----------

  function Max0(x: int): nat {
    if x < 0 then 0 else x
  }

  /** Calls due a given time after the last change of rate, before rounding. */
  function Due(rate: real, period: nat, elapsed: int): real
    requires period > 0
  {
    elapsed as real * rate / period as real
  }

  function Wanted(s: State, period: nat, now: nat): nat
    requires period > 0
  {
    if s.users >= 0 then Max0(s.users - s.current)
    else Max0((Due(s.rate, period, now - s.lastChange) - s.calls as real).Floor)
  }

  /** The sum of a counter and a possibly negative number, as unsigned 64-bit arithmetic has it. */
  function Unsigned(x: int): nat {
    x % WORD
  }

  function ToOpen(s: State, period: nat, now: nat): nat
    requires period > 0
  {
    var a := Wanted(s, period, now);
    var b := if s.total + a > s.stopAfter then s.stopAfter - s.total else a;
    var c := if s.openAllowed != 0 && Unsigned(s.current + b) > s.openAllowed then s.openAllowed - s.current else b;
    Max0(c)
  }

  // ---------- Specification of the steps ----------

  /** The state after k calls have been opened; in user mode each takes the last id of the free list. */
  function Opened(s: State, k: nat): State
    requires s.users >= 0 ==> k <= |s.free|
  {
    var n := |s.free| - k;
    if s.users >= 0 then
      s.(total := s.total + k, current := s.current + k, calls := s.calls + k,
         free := s.free[..n], active := s.active + multiset(s.free[n..]))
    else
      s.(total := s.total + k, current := s.current + k, calls := s.calls + k)
  }

  /** One activation that opens k calls. It looks at the total it read at the start to decide whether
      it was the last one. */
  function Ran(s: State, k: nat): State
    requires s.users >= 0 ==> k <= |s.free|
  {
    if s.quitting || s.paused then s
    else Opened(s, k).(quitting := s.total >= s.stopAfter)
  }

  /** How many calls may be open by default: three times those that start during one call. */
  function Allowance(rate: real, least: nat, period: nat): nat
    requires rate >= 0.0 && period > 0
  {
    AllowanceIsNat(rate, least, period);
    (3.0 * rate * least as real / period as real).Floor
  }

  function RateSet(s: State, period: nat, duration: nat, rate: real, now: nat): State
    requires period > 0
  {
    var r := if rate < 0.0 then 0.0 else rate;
    var least := if duration < 1000 then 1000 else duration;
    var allowed := Allowance(r, least, period);
    s.(rate := r, lastChange := now, calls := 0,
       openAllowed := if s.openIsUserSet then s.openAllowed else if allowed == 0 then 1 else allowed)
  }

  /** Ids for the users numbered above `from`, put in front of the free list one by one: retired ids
      first, then new ones. */
  function Enlisted(free: seq<int>, retired: seq<int>, from: int, last: int): (seq<int>, seq<int>)
    decreases last - from
  {
    if from >= last then (free, retired)
    else if retired != [] then
      Enlisted([retired[|retired| - 1]] + free, retired[..|retired| - 1], from + 1, last)
    else Enlisted([from + 1] + free, retired, from + 1, last)
  }

  function UsersSet(s: State, newUsers: int, now: nat): State
    requires s.users >= 0
  {
    var n := Max0(newUsers);
    var (free, retired) := Enlisted(s.free, s.retired, s.users, n);
    s.(users := n, openAllowed := n, free := free, retired := retired, lastChange := now, calls := 0)
  }

  /** Coming out of a pause counts as setting the users or the rate anew. */
  function PausedSet(s: State, period: nat, duration: nat, on: bool, now: nat): State
    requires period > 0
  {
    if on then s.(paused := true)
    else if s.users >= 0 then UsersSet(s, s.users, now).(paused := false)
    else RateSet(s, period, duration, s.rate, now).(paused := false)
  }

  function UserFreed(s: State, id: int): State {
    if s.current > s.openAllowed then s.(retired := [id] + s.retired)
    else s.(free := [id] + s.free)
  }

  /** A call ends: the counter goes down, then, if the call has a user, the user is given back. */
  function Ended(s: State, id: int): State
    requires s.current > 0
  {
    var t := s.(current := s.current - 1, active := s.active - multiset{id});
    if id != 0 then UserFreed(t, id) else t
  }

  /** The ids of a pool of n users, as the command line sets it up. */
  function UpTo(n: int): seq<int> {
    if n <= 0 then [] else UpTo(n - 1) + [n]
  }

  // ---------- The generator ----------

  class Task {
    var total: nat
    var current: nat
    var stopAfter: nat
    var openAllowed: nat
    var openIsUserSet: bool
    var users: int
    var rate: real
    var lastChange: nat
    var calls: nat
    var free: seq<int>
    var retired: seq<int>
    ghost var active: multiset<int>
    var paused: bool
    var quitting: bool

    ghost function View(): State
      reads this
    {
      State(total, current, stopAfter, openAllowed, openIsUserSet, users, rate, lastChange, calls,
            free, retired, active, paused, quitting)
    }

    /** Before the first activation: the users given on the command line are all free. */
    constructor (stopAfter: nat, openAllowed: nat, openIsUserSet: bool, users: int, rate: real)
      requires users >= -1
      ensures View() == State(0, 0, stopAfter, if users >= 0 then users else openAllowed, openIsUserSet || users >= 0,
                              users, rate, 0, 0, UpTo(users), [], multiset{}, false, false)
    {
      this.stopAfter, this.users, this.rate := stopAfter, users, rate;
      this.openAllowed := if users >= 0 then users else openAllowed;
      this.openIsUserSet := openIsUserSet || users >= 0;
      total, current, lastChange, calls, retired, active, paused, quitting := 0, 0, 0, 0, [], multiset{}, false, false;
      var i, list := 1, [];
      while i <= users
        invariant 1 <= i && (users >= 0 ==> i <= users + 1) && (users < 0 ==> i == 1)
        invariant list == UpTo(i - 1)
      {
        list, i := list + [i], i + 1;
      }
      free := list;
    }

    /** One activation. `clock(i)` is the time read after the i-th call; opening stops as soon as it
        has moved on from the time read at the start. */
    method Run(period: nat, now: nat, start: nat, clock: nat -> nat) returns (made: nat)
      requires period > 0
      requires users >= 0 ==> ToOpen(View(), period, now) <= |free|
      modifies this
      ensures old(users) >= 0 ==> made <= |old(free)|
      ensures View() == Ran(old(View()), made)
      ensures old(quitting || paused) ==> made == 0
      ensures !old(quitting || paused) ==> made <= ToOpen(old(View()), period, now)
      ensures !old(quitting || paused) && made < ToOpen(old(View()), period, now) ==> made > 0 && clock(made) > start
      ensures forall i :: 0 < i < made ==> clock(i) <= start
    {
      hide ToOpen;
      made := 0;
      if quitting || paused {
        return;
      }
      var before := total;
      var toOpen := CallsToOpen(period, now);
      made := OpenCalls(toOpen, start, clock);
      if before >= stopAfter {
        quitting := true;
      }
    }

    method CallsToOpen(period: nat, now: nat) returns (n: nat)
      requires period > 0
      ensures n == ToOpen(View(), period, now)
    {
      var toOpen: int;
      if users >= 0 {
        toOpen := Max0(users - current);
      } else {
        toOpen := Max0((Due(rate, period, now - lastChange) - calls as real).Floor);
      }
      if total + toOpen > stopAfter {
        toOpen := stopAfter - total;
      }
      if openAllowed != 0 && Unsigned(current + toOpen) > openAllowed {
        toOpen := openAllowed - current;
      }
      if toOpen < 0 {
        toOpen := 0;
      }
      return toOpen;
    }

    method OpenCalls(toOpen: nat, start: nat, clock: nat -> nat) returns (made: nat)
      requires users >= 0 ==> toOpen <= |free|
      modifies this
      ensures made <= toOpen && View() == Opened(old(View()), made)
      ensures made < toOpen ==> made > 0 && clock(made) > start
      ensures forall i :: 0 < i < made ==> clock(i) <= start
    {
      hide Opened;
      ghost var s := View();
      made := 0;
      OpenedNone(s);
      while made < toOpen
        invariant 0 <= made <= toOpen
        invariant users == s.users && (users >= 0 ==> |free| == |s.free| - made)
        invariant View() == Opened(s, made)
        invariant forall i :: 0 < i <= made ==> clock(i) <= start
      {
        OpenOne();
        OpenedOneMore(s, made);
        made := made + 1;
        if clock(made) > start {
          break;
        }
      }
    }

    /** One call more, with the user at the back of the free list. */
    method OpenOne()
      requires users >= 0 ==> free != []
      modifies this
      ensures View() == Opened(old(View()), 1)
      ensures users == old(users) && (users >= 0 ==> |free| == |old(free)| - 1)
    {
      if users >= 0 {
        active := active + multiset(free[|free| - 1..]);
        free := free[..|free| - 1];
      }
      total := total + 1;
      current := current + 1;
      calls := calls + 1;
    }

    method SetRate(period: nat, duration: nat, newRate: real, now: nat)
      requires period > 0
      modifies this`rate, this`lastChange, this`calls, this`openAllowed
      ensures View() == RateSet(old(View()), period, duration, newRate, now)
    {
      hide Allowance;
      var r := newRate;
      if r < 0.0 {
        r := 0.0;
      }
      rate, lastChange, calls := r, now, 0;
      if !openIsUserSet {
        var least := duration;
        if least < 1000 {
          least := 1000;
        }
        var allowed := Allowance(r, least, period);
        if allowed == 0 {
          allowed := 1;
        }
        openAllowed := allowed;
      }
    }

    method SetUsers(newUsers: int, now: nat)
      requires users >= 0
      modifies this`users, this`openAllowed, this`free, this`retired, this`lastChange, this`calls
      ensures View() == UsersSet(old(View()), newUsers, now)
    {
      hide Enlisted;
      var n := newUsers;
      if n < 0 {
        n := 0;
      }
      Enlist(n);
      users, openAllowed, lastChange, calls := n, n, now, 0;
    }

    /** Puts one id per additional user on the free list. */
    method Enlist(n: int)
      requires users >= 0
      modifies this`users, this`free, this`retired
      ensures (free, retired) == Enlisted(old(free), old(retired), old(users), n)
    {
      while users < n
        invariant users >= 0
        invariant Enlisted(free, retired, users, n) == Enlisted(old(free), old(retired), old(users), n)
      {
        var id: int;
        if retired != [] {
          id := retired[|retired| - 1];
          retired := retired[..|retired| - 1];
        } else {
          id := users + 1;
        }
        free := [id] + free;
        users := users + 1;
      }
    }

    method SetPaused(period: nat, duration: nat, on: bool, now: nat)
      requires period > 0
      modifies this
      ensures View() == PausedSet(old(View()), period, duration, on, now)
    {
      hide UsersSet, RateSet;
      if !on {
        if users >= 0 {
          SetUsers(users, now);
        } else {
          SetRate(period, duration, rate, now);
        }
      }
      paused := on;
    }

    method FreeUser(id: int)
      modifies this
      ensures View() == UserFreed(old(View()), id)
    {
      if current > openAllowed {
        retired := [id] + retired;
      } else {
        free := [id] + free;
      }
    }

    /** The end of a call: its statistics, then its destructor. */
    method EndCall(id: int)
      requires current > 0
      modifies this
      ensures View() == Ended(old(View()), id)
    {
      current := current - 1;
      active := active - multiset{id};
      if id != 0 {
        FreeUser(id);
      }
    }
  }

  lemma OpenedNone(s: State)
    ensures Opened(s, 0) == s
  {
  }

  lemma TakeOneMore(free: seq<int>, n: nat)
    requires 0 < n <= |free|
    ensures free[..n][..n - 1] == free[..n - 1]
    ensures multiset(free[n..]) + multiset(free[..n][n - 1..]) == multiset(free[n - 1..])
  {
    assert free[n - 1..] == free[..n][n - 1..] + free[n..];
  }

  lemma OpenedOneMore(s: State, k: nat)
    requires s.users >= 0 ==> k < |s.free|
    ensures Opened(s, k).users == s.users && (s.users >= 0 ==> |Opened(s, k).free| == |s.free| - k)
    ensures Opened(Opened(s, k), 1) == Opened(s, k + 1)
  {
    if s.users >= 0 {
      TakeOneMore(s.free, |s.free| - k);
    }
  }

  lemma AllowanceIsNat(rate: real, least: nat, period: nat)
    requires rate >= 0.0 && period > 0
    ensures (3.0 * rate * least as real / period as real).Floor >= 0
  {
    NotNegative(3.0 * rate, least as real, period as real);
  }

  lemma NotNegative(x: real, y: real, z: real)
    requires x >= 0.0 && y >= 0.0 && z > 0.0
    ensures x * y / z >= 0.0
  {
  }

  // ---------- Runs ----------

  /** What happens to the generator: an activation that opens some calls, the end of a call, and the
      settings a person changes. */
  datatype Event =
    | Activate(now: nat, made: nat)
    | End(id: int)
    | ChangeRate(rate: real, now: nat)
    | ChangeUsers(n: int, now: nat)
    | ChangeLimit(limit: nat)
    | Pause(on: bool, now: nat)

  datatype Settings = Settings(period: nat, duration: nat)

  /** An activation opens no more calls than it computed, ends are ends of live calls, users change in
      user mode only and the limit in rate mode only. */
  ghost predicate Legal(cfg: Settings, s: State, e: Event)
    requires cfg.period > 0
  {
    match e
    case Activate(now, made) =>
      && made <= (if s.quitting || s.paused then 0 else ToOpen(s, cfg.period, now))
      && (s.users >= 0 ==> made <= |s.free|)
    case End(id) => s.current > 0 && (if s.users >= 0 then id != 0 && id in s.active else id == 0)
    case ChangeRate(_, _) => true
    case ChangeUsers(_, _) => s.users >= 0
    case ChangeLimit(_) => s.users < 0
    case Pause(_, _) => true
  }

  ghost function After(cfg: Settings, s: State, e: Event): State
    requires cfg.period > 0 && Legal(cfg, s, e)
  {
    match e
    case Activate(now, made) => Ran(s, made)
    case End(id) => Ended(s, id)
    case ChangeRate(rate, now) => RateSet(s, cfg.period, cfg.duration, rate, now)
    case ChangeUsers(n, now) => UsersSet(s, n, now)
    case ChangeLimit(limit) => s.(openAllowed := limit, openIsUserSet := true)
    case Pause(on, now) => PausedSet(s, cfg.period, cfg.duration, on, now)
  }

  ghost predicate IsRun(cfg: Settings, states: seq<State>, events: seq<Event>)
    requires cfg.period > 0
  {
    && |states| == |events| + 1
    && forall i :: 0 <= i < |events| ==>
         Legal(cfg, states[i], events[i]) && states[i + 1] == After(cfg, states[i], events[i])
  }

  // ---------- The two caps ----------

  /** At or below its limit the generator opens no call beyond it, in any mode. */
  lemma OpensWithinTotal(s: State, period: nat, now: nat)
    requires period > 0 && s.total <= s.stopAfter
    ensures s.total + ToOpen(s, period, now) <= s.stopAfter
  {
  }

  lemma UnsignedAtMost(x: nat)
    ensures Unsigned(x) <= x
  {
  }

  /** Whatever happens, the total number of calls never passes the limit it started below. */
  lemma {:induction false} TotalNeverExceeds(cfg: Settings, states: seq<State>, events: seq<Event>, i: nat)
    requires cfg.period > 0 && IsRun(cfg, states, events) && i < |states|
    requires states[0].total <= states[0].stopAfter
    ensures states[i].stopAfter == states[0].stopAfter && states[i].total <= states[0].stopAfter
  {
    hide ToOpen, RateSet, UsersSet;
    if i > 0 {
      TotalNeverExceeds(cfg, states, events, i - 1);
      var s := states[i - 1];
      assert states[i - 1 + 1] == After(cfg, s, events[i - 1]);
      SettingsKeepTotal(cfg, s, events[i - 1]);
      if events[i - 1].Activate? {
        OpensWithinTotal(s, cfg.period, events[i - 1].now);
      }
    }
  }

  lemma SettingsKeepTotal(cfg: Settings, s: State, e: Event)
    requires cfg.period > 0 && Legal(cfg, s, e)
    ensures After(cfg, s, e).stopAfter == s.stopAfter
    ensures After(cfg, s, e).total == s.total + if e.Activate? then e.made else 0
  {
  }

  /** No activation takes the number of live calls above a limit that is set. */
  lemma OpensWithinLimit(s: State, period: nat, now: nat)
    requires period > 0 && s.openAllowed != 0
    requires s.current + Wanted(s, period, now) < WORD
    ensures s.current + ToOpen(s, period, now) <= s.openAllowed || ToOpen(s, period, now) == 0
  {
  }

  /** n calls can be opened: they are due, and neither the total limit nor a limit on live calls that is
      set stands in the way. */
  predicate MayOpen(s: State, due: nat, n: nat) {
    n <= due && s.total + n <= s.stopAfter && (s.openAllowed == 0 || s.current + n <= s.openAllowed)
  }

  /** An activation opens as many calls as it may, and none if even none would be too many. */
  lemma OpensAllItMay(s: State, period: nat, now: nat)
    requires period > 0 && s.total <= s.stopAfter && s.current + Wanted(s, period, now) < WORD
    ensures var n, due := ToOpen(s, period, now), Wanted(s, period, now);
      && !MayOpen(s, due, n + 1)
      && (MayOpen(s, due, n) || (n == 0 && s.openAllowed != 0 && s.current > s.openAllowed))
  {
    hide Due;
  }

  /** Where the total limit binds it is met exactly; where the limit on live calls binds, so is that. */
  lemma CapsAreMet(s: State, period: nat, now: nat)
    requires period > 0 && s.total <= s.stopAfter && s.current + Wanted(s, period, now) < WORD
    ensures var due, left := Wanted(s, period, now), s.stopAfter - s.total;
      left <= due && (s.openAllowed == 0 || s.current + left <= s.openAllowed)
      ==> s.total + ToOpen(s, period, now) == s.stopAfter
    ensures var due, room := Wanted(s, period, now), s.openAllowed - s.current;
      s.openAllowed != 0 && 0 <= room <= due && s.total + room <= s.stopAfter
      ==> s.current + ToOpen(s, period, now) == s.openAllowed
  {
    hide Due;
  }

  /** In user mode the calls due are those that are missing: unless a limit binds, an activation brings
      the live calls up to the number of users. */
  lemma UsersAreServed(s: State, period: nat, now: nat)
    requires period > 0 && s.users >= 0 && s.current <= s.users < WORD
    requires s.total + (s.users - s.current) <= s.stopAfter && (s.openAllowed == 0 || s.users <= s.openAllowed)
    ensures s.current + ToOpen(s, period, now) == s.users
  {
  }

  /** The total limit ends the generator: the activation that finds it met opens nothing more and is the
      last, and no activation before that is. */
  lemma LimitEndsIt(s: State, period: nat, now: nat, made: nat)
    requires period > 0 && !s.quitting && !s.paused && s.total <= s.stopAfter
    requires made <= ToOpen(s, period, now) && (s.users >= 0 ==> made <= |s.free|)
    ensures Ran(s, made).quitting <==> s.total == s.stopAfter
    ensures s.total == s.stopAfter ==> made == 0 && Ran(s, made).total == s.total
  {
    OpensWithinTotal(s, period, now);
  }

  /** A generator that is paused or has quit does nothing. */
  lemma IdleOpensNothing(s: State, made: nat)
    requires (s.paused || s.quitting) && (s.users >= 0 ==> made <= |s.free|)
    ensures Ran(s, made) == s
  {
  }

  /** An activation that opens some calls makes them all live and counts each of them; in user mode they take
      the users from the back of the free list. */
  lemma ActivationCounts(s: State, made: nat)
    requires !s.quitting && !s.paused && (s.users >= 0 ==> made <= |s.free|)
    ensures var t, rest := Ran(s, made), |s.free| - made;
      && t.total == s.total + made && t.current == s.current + made && t.calls == s.calls + made
      && (s.users >= 0 ==> t.free == s.free[..rest] && t.active == s.active + multiset(s.free[rest..]))
      && (s.users < 0 ==> t.free == s.free && t.active == s.active)
      && t.retired == s.retired && t.openAllowed == s.openAllowed && t.users == s.users
  {
  }

  // ---------- Settings ----------

  /** The calls due are rate times time, in periods. */
  lemma DuePerPeriod(rate: real, period: nat, elapsed: int)
    requires period > 0
    ensures Due(rate, period, elapsed) * period as real == elapsed as real * rate
  {
  }

  /** A change of rate starts the count anew: the calls due at a later time are those of the new rate, a
      negative one counting as zero, over the time since. */
  lemma RateRestarts(s: State, period: nat, duration: nat, rate: real, now: nat, later: nat)
    requires period > 0 && s.users < 0
    ensures var t := RateSet(s, period, duration, rate, now);
      && Wanted(t, period, later) == Max0(Due(if rate < 0.0 then 0.0 else rate, period, later - now).Floor)
      && t.total == s.total && t.current == s.current && t.stopAfter == s.stopAfter && t.users == s.users
  {
    hide Due, Allowance;
  }

  /** The end of a pause does the same with the rate there is. */
  lemma UnpausingRestarts(s: State, period: nat, duration: nat, now: nat, later: nat)
    requires period > 0 && s.users < 0 && s.rate >= 0.0
    ensures var t := PausedSet(s, period, duration, false, now);
      Wanted(t, period, later) == Max0(Due(s.rate, period, later - now).Floor) && !t.paused && t.total == s.total
    ensures PausedSet(s, period, duration, true, now) == s.(paused := true)
  {
    hide Due, Allowance;
  }

  /** The limit on live calls follows the rate, unless a person set it: three times the calls of the
      longest of one second and the scenario's duration, rounded down, but at least one. */
  lemma DefaultLimit(s: State, period: nat, duration: nat, rate: real, now: nat)
    requires period > 0
    ensures var t := RateSet(s, period, duration, rate, now);
      var r, longest := if rate < 0.0 then 0.0 else rate, if duration < 1000 then 1000 else duration;
      var calls := 3.0 * r * longest as real / period as real;
      if s.openIsUserSet then t.openAllowed == s.openAllowed
      else t.openAllowed as real <= calls < t.openAllowed as real + 1.0 || (calls < 1.0 && t.openAllowed == 1)
  {
  }

  /** In user mode the number of users is the limit as well, and any negative number counts as none. */
  lemma UsersAreTheLimit(s: State, n: int, now: nat)
    requires s.users >= 0
    ensures var t := UsersSet(s, n, now);
      t.users == t.openAllowed == (if n < 0 then 0 else n) && t.current == s.current && t.total == s.total
      && t.active == s.active
  {
  }

  /** Retired users come back first, the one retired longest ago before the others; then new ids follow
      the number of users. */
  lemma RaisedByOne(s: State, now: nat)
    requires s.users >= 0
    ensures var t, n := UsersSet(s, s.users + 1, now), |s.retired|;
      if n > 0 then t.free == [s.retired[n - 1]] + s.free && t.retired == s.retired[..n - 1]
      else t.free == [s.users + 1] + s.free && t.retired == []
  {
    var n := |s.retired|;
    if n > 0 {
      assert Enlisted(s.free, s.retired, s.users, s.users + 1)
          == Enlisted([s.retired[n - 1]] + s.free, s.retired[..n - 1], s.users + 1, s.users + 1);
    } else {
      assert Enlisted(s.free, [], s.users, s.users + 1)
          == Enlisted([s.users + 1] + s.free, [], s.users + 1, s.users + 1);
    }
  }

  /** When a call ends, its user is retired if more calls are still live than may be, and free otherwise;
      a call without a user gives nothing back. */
  lemma EndGivesBack(s: State, id: int)
    requires s.current > 0
    ensures var t := Ended(s, id);
      && t.current == s.current - 1 && t.total == s.total && t.active == s.active - multiset{id}
      && (id == 0 ==> t.free == s.free && t.retired == s.retired)
      && (id != 0 && s.current - 1 > s.openAllowed ==> t.free == s.free && t.retired == [id] + s.retired)
      && (id != 0 && s.current - 1 <= s.openAllowed ==> t.free == [id] + s.free && t.retired == s.retired)
  {
  }

  /** Users take turns: one who is given back is issued again only after all that were free before. */
  lemma UsersTakeTurns(s: State, id: int)
    requires s.users >= 0 && s.current <= s.openAllowed
    ensures var t := Opened(UserFreed(s, id), |s.free|);
      t.free == [id] && t.active == s.active + multiset(s.free) && t.total == s.total + |s.free|
  {
    var free := [id] + s.free;
    assert free[..1] == [id] && free[1..] == s.free;
  }

  // ---------- Rate mode ----------

  /** Calls that should have been opened a given time after the last change of rate. */
  function Quota(rate: real, period: nat, elapsed: int): int
    requires period > 0
  {
    Due(rate, period, elapsed).Floor
  }

  lemma DueMonotone(rate: real, period: nat, t: int, u: int)
    requires period > 0 && rate >= 0.0 && t <= u
    ensures Due(rate, period, t) <= Due(rate, period, u)
  {
    var p := period as real;
    assert (u - t) as real * rate >= 0.0;
    assert u as real * rate - t as real * rate == (u - t) as real * rate;
    Divided(t as real * rate, u as real * rate, p);
  }

  lemma Divided(x: real, y: real, p: real)
    requires x <= y && p > 0.0
    ensures x / p <= y / p
  {
  }

  /** The clock of the run so far, and calls within the quota. */
  predicate OnRate(cfg: Settings, s: State, clock: int)
    requires cfg.period > 0
  {
    s.users < 0 && s.rate >= 0.0 && s.lastChange <= clock && s.calls <= Quota(s.rate, cfg.period, clock - s.lastChange)
  }

  function Time(e: Event, clock: int): int {
    match e
    case Activate(now, _) => now
    case ChangeRate(_, now) => now
    case ChangeUsers(_, now) => now
    case Pause(_, now) => now
    case _ => clock
  }

  /** The latest time read in the first i events of a run. */
  function Clock(events: seq<Event>, i: nat, start: int): int
    requires i <= |events|
  {
    if i == 0 then start else Time(events[i - 1], Clock(events, i - 1, start))
  }

  lemma ActivationWithinQuota(s: State, period: nat, now: nat)
    requires period > 0 && s.users < 0 && s.rate >= 0.0 && s.lastChange <= now && s.total <= s.stopAfter
    ensures s.calls <= Quota(s.rate, period, now - s.lastChange) ==>
        s.calls + Wanted(s, period, now) == Quota(s.rate, period, now - s.lastChange)
    ensures s.calls > Quota(s.rate, period, now - s.lastChange) ==> Wanted(s, period, now) == 0
    ensures ToOpen(s, period, now) <= Wanted(s, period, now)
  {
  }

  lemma RateStep(cfg: Settings, s: State, e: Event, clock: int)
    requires cfg.period > 0 && Legal(cfg, s, e) && s.total <= s.stopAfter
    requires OnRate(cfg, s, clock) && clock <= Time(e, clock)
    ensures OnRate(cfg, After(cfg, s, e), Time(e, clock))
  {
    var now := Time(e, clock);
    match e
    case Activate(_, made) =>
      DueMonotone(s.rate, cfg.period, clock - s.lastChange, now - s.lastChange);
      ActivationWithinQuota(s, cfg.period, now);
    case ChangeRate(rate, _) => assert Due(After(cfg, s, e).rate, cfg.period, 0) == 0.0;
    case Pause(on, _) =>
      DueMonotone(s.rate, cfg.period, clock - s.lastChange, now - s.lastChange);
      assert Due(s.rate, cfg.period, 0) == 0.0;
    case _ =>
  }

  /** In rate mode the calls opened since the last change of rate never exceed
      floor(elapsed * rate / period), as long as the clock does not run backwards. */
  lemma {:induction false} RateNeverExceeded(cfg: Settings, states: seq<State>, events: seq<Event>, start: int, i: nat)
    requires cfg.period > 0 && IsRun(cfg, states, events) && i <= |events|
    requires states[0].total <= states[0].stopAfter && OnRate(cfg, states[0], start)
    requires forall j :: 0 <= j < |events| ==> Clock(events, j, start) <= Clock(events, j + 1, start)
    ensures OnRate(cfg, states[i], Clock(events, i, start))
  {
    if i > 0 {
      RateNeverExceeded(cfg, states, events, start, i - 1);
      TotalNeverExceeds(cfg, states, events, i - 1);
      hide OnRate, Legal, After;
      assert Clock(events, i - 1, start) <= Clock(events, i - 1 + 1, start);
      assert states[i - 1 + 1] == After(cfg, states[i - 1], events[i - 1]);
      RateStep(cfg, states[i - 1], events[i - 1], Clock(events, i - 1, start));
    }
  }

  /** An activation that neither cap holds back and that is not cut short meets the quota exactly. */
  lemma QuotaMet(cfg: Settings, s: State, now: nat)
    requires cfg.period > 0 && OnRate(cfg, s, now) && !s.quitting && !s.paused
    requires s.total + Wanted(s, cfg.period, now) <= s.stopAfter
    requires s.openAllowed == 0 || s.current + Wanted(s, cfg.period, now) <= s.openAllowed
    ensures var t := Ran(s, ToOpen(s, cfg.period, now)); t.calls == Quota(t.rate, cfg.period, now - t.lastChange)
  {
    ActivationWithinQuota(s, cfg.period, now);
    hide Due;
    UnsignedAtMost(s.current + Wanted(s, cfg.period, now));
  }

  // ---------- User mode ----------

  ghost function Ids(n: nat): multiset<int> {
    if n == 0 then multiset{} else Ids(n - 1) + multiset{n}
  }

  lemma {:induction false} IdsAreOneToN(n: nat, id: int)
    ensures Ids(n)[id] == (if 1 <= id <= n then 1 else 0) && |Ids(n)| == n
  {
    if n > 0 {
      IdsAreOneToN(n - 1, id);
    }
  }

  /** Free and busy ids together are exactly 1 to `users`, each once; nobody is retired. */
  ghost predicate Pool(s: State) {
    && s.users >= 0 && s.openIsUserSet && s.openAllowed == s.users
    && s.retired == [] && s.current == |s.active|
    && multiset(s.free) + s.active == Ids(s.users)
  }

  /** In a sound pool there are as many free ids as calls to open, so the free list is never popped
      when empty. */
  lemma EnoughFree(s: State, period: nat, now: nat)
    requires period > 0 && Pool(s)
    ensures ToOpen(s, period, now) <= |s.free| == s.users - s.current
  {
    IdsAreOneToN(s.users, 0);
    assert |multiset(s.free) + s.active| == |s.free| + |s.active|;
    UnsignedAtMost(s.current + Wanted(s, period, now));
  }

  /** Nobody being retired, enlisting adds the ids from + 1 to `last`, each once. */
  lemma {:induction false} EnlistedIds(free: seq<int>, from: nat, last: int, id: int)
    requires from <= last
    ensures var r := Enlisted(free, [], from, last);
      r.1 == [] && multiset(r.0)[id] + Ids(from)[id] == multiset(free)[id] + Ids(last)[id]
    decreases last - from
  {
    if from < last {
      EnlistedIds([from + 1] + free, from + 1, last, id);
      assert multiset([from + 1] + free) == multiset{from + 1} + multiset(free);
    }
  }

  lemma PoolAfterOpening(s: State, k: nat)
    requires Pool(s) && k <= |s.free|
    ensures Pool(Opened(s, k))
  {
    var n := |s.free| - k;
    assert s.free == s.free[..n] + s.free[n..];
  }

  lemma PoolAfterEnd(s: State, id: int)
    requires Pool(s) && s.current > 0 && id in s.active && id != 0
    ensures Pool(Ended(s, id))
  {
    IdsAreOneToN(s.users, 0);
    assert |multiset(s.free) + s.active| == |s.free| + |s.active|;
    var t := Ended(s, id);
    assert multiset([id] + s.free) == multiset{id} + multiset(s.free);
  }

  /** Raising the number of users keeps the pool sound, lowering it never does: the ids of the users
      that are gone stay on the list. */
  lemma PoolKeptIffNotLowered(s: State, n: int, now: nat)
    requires Pool(s)
    ensures Pool(UsersSet(s, n, now)) <==> Max0(n) >= s.users
  {
    var m := Max0(n);
    if m >= s.users {
      var t := UsersSet(s, n, now);
      EnlistedIds(s.free, s.users, m, 0);
      forall id ensures (multiset(t.free) + t.active)[id] == Ids(m)[id] {
        EnlistedIds(s.free, s.users, m, id);
        assert (multiset(s.free) + s.active)[id] == Ids(s.users)[id];
      }
    } else {
      IdsAreOneToN(s.users, s.users);
      IdsAreOneToN(m, s.users);
    }
  }

  /** From a sound pool, in user mode, every run that never lowers the number of users keeps the pool
      sound. */
  lemma {:induction false} PoolStaysSound(cfg: Settings, states: seq<State>, events: seq<Event>, i: nat)
    requires cfg.period > 0 && IsRun(cfg, states, events) && i < |states|
    requires Pool(states[0])
    requires forall j :: 0 <= j < |events| && events[j].ChangeUsers? ==> events[j].n >= states[j].users
    ensures Pool(states[i])
  {
    if i > 0 {
      PoolStaysSound(cfg, states, events, i - 1);
      PoolStep(cfg, states[i - 1], events[i - 1]);
      assert states[i - 1 + 1] == After(cfg, states[i - 1], events[i - 1]);
    }
  }

  lemma PoolStep(cfg: Settings, s: State, e: Event)
    requires cfg.period > 0 && Legal(cfg, s, e) && Pool(s) && (e.ChangeUsers? ==> e.n >= s.users)
    ensures Pool(After(cfg, s, e))
  {
    match e
    case Activate(_, made) =>
      hide ToOpen;
      PoolAfterOpening(s, made);
    case End(id) => PoolAfterEnd(s, id);
    case ChangeUsers(n, now) => PoolKeptIffNotLowered(s, n, now);
    case Pause(_, now) => PoolKeptIffNotLowered(s, s.users, now);
    case _ =>
  }

  lemma {:induction false} UpToIds(n: nat)
    ensures multiset(UpTo(n)) == Ids(n)
  {
    if n > 0 {
      UpToIds(n - 1);
    }
  }

  /** The pool given on the command line is sound. */
  lemma FirstPool(s: State)
    requires s.users >= 0 && s.openIsUserSet && s.openAllowed == s.users && s.current == 0
    requires s.free == UpTo(s.users) && s.retired == [] && s.active == multiset{}
    ensures Pool(s)
  {
    UpToIds(s.users);
  }

  // ---------- No id twice ----------

  /** The ids in use or on one of the two lists. */
  ghost function Everyone(s: State): multiset<int> {
    multiset(s.free) + s.active + multiset(s.retired)
  }

  ghost predicate NoIdTwice(s: State) {
    forall id :: Everyone(s)[id] <= 1
  }

  /** Setting the users makes up new ids only above the users that there are and the retired ones that
      come back; none of these is in use or listed. */
  ghost predicate AddsFreshIds(s: State, n: int) {
    forall id :: s.users + |s.retired| < id <= Max0(n) ==> id !in Everyone(s)
  }

  lemma {:induction false} EnlistedAdds(free: seq<int>, retired: seq<int>, from: nat, last: int, id: int)
    ensures var r := Enlisted(free, retired, from, last);
      multiset(r.0)[id] + multiset(r.1)[id]
      == multiset(free)[id] + multiset(retired)[id] + (if from + |retired| < id <= last then 1 else 0)
    decreases last - from
  {
    if from < last {
      if retired != [] {
        var n := |retired| - 1;
        assert retired == retired[..n] + [retired[n]];
        assert multiset([retired[n]] + free) == multiset{retired[n]} + multiset(free);
        EnlistedAdds([retired[n]] + free, retired[..n], from + 1, last, id);
      } else {
        assert multiset([from + 1] + free) == multiset{from + 1} + multiset(free);
        EnlistedAdds([from + 1] + free, [], from + 1, last, id);
      }
    }
  }

  lemma EveryoneAfterUsers(s: State, n: int, now: nat, id: int)
    requires s.users >= 0
    ensures Everyone(UsersSet(s, n, now))[id]
            == Everyone(s)[id] + (if s.users + |s.retired| < id <= Max0(n) then 1 else 0)
  {
    EnlistedAdds(s.free, s.retired, s.users, Max0(n), id);
  }

  /** Setting the number of users keeps every id single exactly when the ids it makes up are fresh. */
  lemma NoIdTwiceKeptIff(s: State, n: int, now: nat)
    requires s.users >= 0 && NoIdTwice(s)
    ensures NoIdTwice(UsersSet(s, n, now)) <==> AddsFreshIds(s, n)
  {
    hide UsersSet, Everyone;
    var before, after, above := Everyone(s), Everyone(UsersSet(s, n, now)), s.users + |s.retired|;
    forall id ensures after[id] == before[id] + (if above < id <= Max0(n) then 1 else 0) {
      EveryoneAfterUsers(s, n, now, id);
    }
    Counted(before, after, above, Max0(n));
  }

  lemma Counted(before: multiset<int>, after: multiset<int>, above: int, last: int)
    requires forall id :: after[id] == before[id] + (if above < id <= last then 1 else 0)
    requires forall id :: before[id] <= 1
    ensures (forall id :: after[id] <= 1) <==> (forall id :: above < id <= last ==> id !in before)
  {
    if forall id :: after[id] <= 1 {
      forall id | above < id <= last ensures id !in before {
        assert after[id] <= 1;
      }
    }
  }

  lemma EveryoneElsewhere(cfg: Settings, s: State, e: Event)
    requires cfg.period > 0 && Legal(cfg, s, e) && !e.ChangeUsers? && !(e.Pause? && !e.on)
    requires NoIdTwice(s)
    ensures NoIdTwice(After(cfg, s, e))
  {
    match e
    case Activate(_, made) =>
      hide ToOpen;
      EveryoneAfterOpening(s, made);
      assert Everyone(After(cfg, s, e)) == Everyone(if s.quitting || s.paused then s else Opened(s, made));
    case End(id) => EveryoneAfterEnd(s, id);
    case ChangeRate(_, _) => assert Everyone(After(cfg, s, e)) == Everyone(s);
    case ChangeLimit(_) => assert Everyone(After(cfg, s, e)) == Everyone(s);
    case Pause(_, _) => assert Everyone(After(cfg, s, e)) == Everyone(s);
    case ChangeUsers(_, _) =>
  }

  lemma EveryoneAfterOpening(s: State, k: nat)
    requires s.users >= 0 ==> k <= |s.free|
    ensures Everyone(Opened(s, k)) == Everyone(s)
  {
    if s.users >= 0 {
      var n := |s.free| - k;
      assert s.free == s.free[..n] + s.free[n..];
    }
  }

  lemma MovedFromActive(list: seq<int>, active: multiset<int>, id: int)
    requires id in active
    ensures multiset([id] + list) + (active - multiset{id}) == multiset(list) + active
  {
    assert multiset([id] + list) == multiset{id} + multiset(list);
  }

  lemma EveryoneAfterEnd(s: State, id: int)
    requires s.current > 0 && (id != 0 ==> id in s.active) && NoIdTwice(s)
    ensures NoIdTwice(Ended(s, id))
  {
    var t := Ended(s, id);
    if id == 0 {
      assert forall x :: Everyone(t)[x] <= Everyone(s)[x];
    } else {
      MovedFromActive(s.free, s.active, id);
      MovedFromActive(s.retired, s.active, id);
      assert t.active == s.active - multiset{id};
      if s.current - 1 > s.openAllowed {
        assert Everyone(t) == multiset(s.free) + (multiset([id] + s.retired) + t.active);
      } else {
        assert Everyone(t) == (multiset([id] + s.free) + t.active) + multiset(s.retired);
      }
      assert Everyone(t) == Everyone(s);
    }
  }

  lemma NoIdTwiceStep(cfg: Settings, s: State, e: Event)
    requires cfg.period > 0 && Legal(cfg, s, e) && NoIdTwice(s)
    ensures NoIdTwice(After(cfg, s, e)) <==> e.ChangeUsers? ==> AddsFreshIds(s, e.n)
  {
    hide NoIdTwice, AddsFreshIds, UsersSet, RateSet, Opened, Ended;
    if e.ChangeUsers? {
      NoIdTwiceKeptIff(s, e.n, e.now);
    } else if e.Pause? && !e.on {
      Unpaused(cfg, s, e);
    } else {
      EveryoneElsewhere(cfg, s, e);
    }
  }

  lemma Unpaused(cfg: Settings, s: State, e: Event)
    requires cfg.period > 0 && e.Pause? && !e.on && NoIdTwice(s)
    ensures NoIdTwice(After(cfg, s, e))
  {
    var t := After(cfg, s, e);
    if s.users >= 0 {
      NoIdTwiceKeptIff(s, s.users, e.now);
      assert Everyone(t) == Everyone(UsersSet(s, s.users, e.now));
    } else {
      assert Everyone(t) == Everyone(s);
    }
  }

  /** Over a whole run, no id is ever in two places if and only if every change of the number of users
      adds fresh ids only. */
  lemma {:induction false} NoIdTwiceIff(cfg: Settings, states: seq<State>, events: seq<Event>, n: nat)
    requires cfg.period > 0 && IsRun(cfg, states, events) && n <= |events| && NoIdTwice(states[0])
    ensures (forall i :: 0 <= i <= n ==> NoIdTwice(states[i]))
            <==> (forall j :: 0 <= j < n && events[j].ChangeUsers? ==> AddsFreshIds(states[j], events[j].n))
  {
    hide NoIdTwice, AddsFreshIds, After, Legal;
    if n > 0 {
      NoIdTwiceIff(cfg, states, events, n - 1);
      assert Legal(cfg, states[n - 1], events[n - 1]) && states[n - 1 + 1] == After(cfg, states[n - 1], events[n - 1]);
      if NoIdTwice(states[n - 1]) {
        NoIdTwiceStep(cfg, states[n - 1], events[n - 1]);
      }
    }
  }

  /** A pool of two users: the calls made so far, the live ones, the users and the ids. */
  ghost function Two(calls: nat, current: nat, users: int, free: seq<int>, active: multiset<int>): State
    requires users >= 0
  {
    State(calls, current, 100, users, true, users, 0.0, 0, calls, free, [], active, false, false)
  }

  lemma TwoLowered()
    ensures UsersSet(Two(0, 0, 2, [1, 2], multiset{}), 1, 0) == Two(0, 0, 1, [1, 2], multiset{})
    ensures UsersSet(Two(0, 0, 1, [1, 2], multiset{}), 2, 0) == Two(0, 0, 2, [2, 1, 2], multiset{})
  {
    assert Enlisted([1, 2], [], 2, 1) == ([1, 2], []);
    assert [2] + [1, 2] == [2, 1, 2];
    assert Enlisted([1, 2], [], 1, 2) == Enlisted([2, 1, 2], [], 2, 2);
  }

  lemma TwoOpened()
    ensures ToOpen(Two(0, 0, 2, [2, 1, 2], multiset{}), 1000, 0) == 2
    ensures Ran(Two(0, 0, 2, [2, 1, 2], multiset{}), 2) == Two(2, 2, 2, [2], multiset{1, 2})
  {
    assert [2, 1, 2][..1] == [2] && [2, 1, 2][1..] == [1, 2];
  }

  lemma TwoEnded()
    ensures Ended(Two(2, 2, 2, [2], multiset{1, 2}), 1) == Two(2, 1, 2, [1, 2], multiset{2})
  {
    assert [1] + [2] == [1, 2];
  }

  lemma TwoAgain()
    ensures ToOpen(Two(2, 1, 2, [1, 2], multiset{2}), 1000, 0) == 1
    ensures Ran(Two(2, 1, 2, [1, 2], multiset{2}), 1) == Two(3, 2, 2, [1], multiset{2, 2})
  {
    assert [1, 2][..1] == [1] && [1, 2][1..] == [2];
  }

  lemma TwoSteps()
    ensures var cfg := Settings(1000, 1000);
      var s0, s1 := Two(0, 0, 2, [1, 2], multiset{}), Two(0, 0, 1, [1, 2], multiset{});
      var s2, s3 := Two(0, 0, 2, [2, 1, 2], multiset{}), Two(2, 2, 2, [2], multiset{1, 2});
      var s4, s5 := Two(2, 1, 2, [1, 2], multiset{2}), Two(3, 2, 2, [1], multiset{2, 2});
      && Legal(cfg, s0, ChangeUsers(1, 0)) && s1 == After(cfg, s0, ChangeUsers(1, 0))
      && Legal(cfg, s1, ChangeUsers(2, 0)) && s2 == After(cfg, s1, ChangeUsers(2, 0))
      && Legal(cfg, s2, Activate(0, 2)) && s3 == After(cfg, s2, Activate(0, 2))
      && Legal(cfg, s3, End(1)) && s4 == After(cfg, s3, End(1))
      && Legal(cfg, s4, Activate(0, 1)) && s5 == After(cfg, s4, Activate(0, 1))
      && Pool(s0) && s0.free == [1, 2] && s5.active == multiset{2, 2}
  {
    hide UsersSet, ToOpen, Ran, Ended;
    TwoLowered();
    TwoOpened();
    TwoEnded();
    TwoAgain();
    TwoFirst();
  }

  lemma TwoFirst()
    ensures Pool(Two(0, 0, 2, [1, 2], multiset{}))
  {
    assert UpTo(2) == [1, 2];
    FirstPool(Two(0, 0, 2, [1, 2], multiset{}));
  }

  /** Two users, then one, then two again: after two calls and the end of the first, the next call
      gets the id of the one that is still live. */
  lemma LoweringIssuesAnIdTwice() returns (states: seq<State>, events: seq<Event>)
    ensures IsRun(Settings(1000, 1000), states, events)
    ensures Pool(states[0]) && states[0].free == [1, 2]
    ensures states[|events|].active == multiset{2, 2}
  {
    events := [ChangeUsers(1, 0), ChangeUsers(2, 0), Activate(0, 2), End(1), Activate(0, 1)];
    states := [Two(0, 0, 2, [1, 2], multiset{}), Two(0, 0, 1, [1, 2], multiset{}), Two(0, 0, 2, [2, 1, 2], multiset{}),
               Two(2, 2, 2, [2], multiset{1, 2}), Two(2, 1, 2, [1, 2], multiset{2}), Two(3, 2, 2, [1], multiset{2, 2})];
    hide *;
    TwoSteps();
    FiveSteps(Settings(1000, 1000), states, events);
  }

  lemma FiveSteps(cfg: Settings, states: seq<State>, events: seq<Event>)
    requires cfg.period > 0 && |states| == 6 && |events| == 5
    requires Legal(cfg, states[0], events[0]) && states[1] == After(cfg, states[0], events[0])
    requires Legal(cfg, states[1], events[1]) && states[2] == After(cfg, states[1], events[1])
    requires Legal(cfg, states[2], events[2]) && states[3] == After(cfg, states[2], events[2])
    requires Legal(cfg, states[3], events[3]) && states[4] == After(cfg, states[3], events[3])
    requires Legal(cfg, states[4], events[4]) && states[5] == After(cfg, states[4], events[4])
    ensures IsRun(cfg, states, events)
  {
    hide Legal, After;
  }
}
