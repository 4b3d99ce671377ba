/** When a call in loose message sequence can go on, for every reachable state, with arrivals during a
    pause ignored or not; and what such arrivals can do. */
module LooseHangs {
  import opened Scenario
  import opened LooseSequence
  import opened LooseRuns

  // ---------- Where a call waits ----------

  /** The first entry from i on that cannot be stepped over; |sc| if there is none. */
  function Break(sc: seq<Message>, nr: seq<nat>, i: nat): (b: nat)
    requires i <= |sc| == |nr|
    ensures i <= b <= |sc| && (b < |sc| ==> !Passable(sc, nr, b))
    ensures forall k :: i <= k < b ==> Passable(sc, nr, k)
    decreases |sc| - i
  {
    if i < |sc| && Passable(sc, nr, i) then Break(sc, nr, i + 1) else i
  }

  /** The call waits at a receive, and the first entry it cannot step over is not a receive that some
      message can be credited to. */
  ghost predicate Hung(sc: seq<Message>, s: State)
    requires Shaped(sc, s)
  {
    s.msgIndex < |sc| && sc[s.msgIndex].Recv? &&
    var b := Break(sc, s.nbRecv, s.msgIndex);
    b == |sc| || !sc[b].Recv? || !CanFit(s.callIds, sc[b].Dialog())
  }

  /** The call has ended, or waits in a pause, or waits at a receive and has jumped as far as it can. */
  ghost predicate Rests(sc: seq<Message>, s: State)
    requires Shaped(sc, s)
  {
    || s.msgIndex == |sc|
    || sc[s.msgIndex].Pause?
    || (sc[s.msgIndex].Recv? && LastInSequence(sc, s.nbRecv, s.msgIndex) == s.msgIndex)
  }

  lemma AtBreakRests(sc: seq<Message>, s: State)
    requires Shaped(sc, s) && AtBreak(sc, s.nbRecv, s.msgIndex)
    requires s.msgIndex < |sc| ==> sc[s.msgIndex].Recv? || sc[s.msgIndex].Pause?
    ensures Rests(sc, s)
  {
  }

  lemma {:induction false} RunFromRests(sc: seq<Message>, s: State)
    requires Shaped(sc, s) && AtBreak(sc, s.nbRecv, s.msgIndex)
    ensures Rests(sc, RunFrom(sc, s))
    decreases |sc| - s.msgIndex
  {
    var i := s.msgIndex;
    if i < |sc| && (sc[i].Send? || sc[i].Nop?) {
      var t := if sc[i].Send? then Perform(sc, s) else s;
      JumpLandsAtBreak(sc, s.nbRecv, i);
      RunFromRests(sc, Jumped(sc, t));
    } else {
      AtBreakRests(sc, s);
    }
  }

  /** Crediting an optional entry frees nothing. */
  lemma OptionalFreesNothing(sc: seq<Message>, s: State, k: nat, p: Packet)
    requires Shaped(sc, s) && Rests(sc, s) && k < |sc| && sc[k].Optional()
    ensures Rests(sc, Credit(sc, s, k, p))
  {
    var t := Credit(sc, s, k, p);
    var i := s.msgIndex;
    if i < |sc| && sc[i].Recv? && !Awaited(sc, s.nbRecv, i) {
      var r := LastInSequence(sc, t.nbRecv, i);
      assert forall j :: 0 <= j < |sc| ==> Passable(sc, t.nbRecv, j) == Passable(sc, s.nbRecv, j);
      assert InSequence(sc, s.nbRecv, i, r);
      LastInSequenceIsLargest(sc, s.nbRecv, i, i);
    }
  }

  lemma AdvanceRests(sc: seq<Message>, s: State, k: nat)
    requires Shaped(sc, s) && s.msgIndex <= k < |sc| && sc[k].Recv? && s.nbRecv[k] >= 1
    requires sc[s.msgIndex].Recv? || sc[s.msgIndex].Pause?
    requires sc[k].advance && !(k == s.msgIndex && sc[k].optional)
    ensures Rests(sc, AfterCredit(sc, s, k))
  {
    var i, r := s.msgIndex, LastInSequence(sc, s.nbRecv, s.msgIndex);
    if r < k {
      var q := LastInSequence(sc, s.nbRecv, r);
      assert q > r && !Awaited(sc, s.nbRecv, i) ==> InSequence(sc, s.nbRecv, i, q);
    } else {
      JumpLandsAtBreak(sc, s.nbRecv, i);
      assert r == i || Taken(sc, s.nbRecv, r);
      RunFromRests(sc, s.(msgIndex := r + 1));
    }
  }

  lemma StepRests(sc: seq<Message>, pauseIgn: bool, s: State, e: Event)
    requires WellFormed(sc) && Shaped(sc, s) && Rests(sc, s)
    ensures Rests(sc, Step(sc, pauseIgn, s, e))
  {
    if s.msgIndex < |sc| {
      match e
      case PauseOver =>
        if sc[s.msgIndex].Pause? {
          JumpLandsAtBreak(sc, s.nbRecv, s.msgIndex);
          RunFromRests(sc, Jumped(sc, s));
        }
      case Arrive(p) =>
        var k := FirstCandidate(sc, s, p, s.msgIndex);
        if k < |sc| && !(pauseIgn && sc[s.msgIndex].Pause?) {
          var t := Credit(sc, s, k, p);
          if !sc[k].advance || (k == s.msgIndex && sc[k].optional) {
            OptionalFreesNothing(sc, s, k, p);
          } else {
            AdvanceRests(sc, t, k);
          }
        }
    }
  }

  lemma {:induction false} ExecRests(sc: seq<Message>, pauseIgn: bool, s: State, es: seq<Event>)
    requires WellFormed(sc) && Shaped(sc, s) && Rests(sc, s)
    ensures Rests(sc, Exec(sc, pauseIgn, s, es))
    decreases |es|
  {
    if es != [] {
      StepRests(sc, pauseIgn, s, es[0]);
      ExecRests(sc, pauseIgn, Step(sc, pauseIgn, s, es[0]), es[1..]);
    }
  }

  lemma RunRests(sc: seq<Message>, pauseIgn: bool, ownId: string, es: seq<Event>)
    requires WellFormed(sc)
    ensures Rests(sc, Run(sc, pauseIgn, ownId, es))
  {
    RunFromRests(sc, Created(sc, ownId));
    ExecRests(sc, pauseIgn, RunFrom(sc, Created(sc, ownId)), es);
  }

  // ---------- A hung call stays where it is ----------

  /** While the call does not move, no message that could not be matched becomes one that can. */
  lemma StillNoFit(sc: seq<Message>, s: State, k: nat, p: Packet, d: int)
    requires Shaped(sc, s) && k < |sc| && Matches(sc, s.callIds, k, p) && !CanFit(s.callIds, d)
    ensures !CanFit(Credit(sc, s, k, p).callIds, d)
  {
    var ids, after := s.callIds, Credit(sc, s, k, p).callIds;
    var e :| Share(ids, e, d);
    assert Holds(ids, e, ids[d]) && Holds(ids, d, ids[d]);
    assert BoundId(ids, e) != "" && BoundId(ids, d) != "";
    forall n | n < 0 ensures !Holds(after, n, ids[d]) {
      assert !Holds(ids, n, ids[d]);
    }
    assert Share(after, e, d);
  }

  lemma BreakStays(sc: seq<Message>, s: State, k: nat, p: Packet)
    requires Shaped(sc, s) && s.msgIndex < |sc| && sc[s.msgIndex].Recv? && Rests(sc, s)
    requires s.msgIndex <= k < |sc| && IsCandidate(sc, s, k, p) && k != Break(sc, s.nbRecv, s.msgIndex)
    ensures var t := Credit(sc, s, k, p);
      && Break(sc, t.nbRecv, t.msgIndex) == Break(sc, s.nbRecv, s.msgIndex)
      && LastInSequence(sc, t.nbRecv, t.msgIndex) == t.msgIndex
      && (k == s.msgIndex ==> sc[k].optional)
  {
    var t := Credit(sc, s, k, p);
    var i, b := s.msgIndex, Break(sc, s.nbRecv, s.msgIndex);
    assert forall j :: 0 <= j < |sc| && j != k ==> Passable(sc, t.nbRecv, j) == Passable(sc, s.nbRecv, j);
    assert b < |sc| ==> !Passable(sc, t.nbRecv, b);
    assert forall j :: i <= j < b ==> Passable(sc, t.nbRecv, j);
    assert i < b ==> Passable(sc, s.nbRecv, i);
    var r := LastInSequence(sc, t.nbRecv, i);
    assert r > i ==> Taken(sc, t.nbRecv, r) && !(i <= b <= r);
    assert i <= k < b ==> Passable(sc, s.nbRecv, k) && sc[k].Optional();
    assert r > i ==> InSequence(sc, s.nbRecv, i, r);
  }

  lemma HungStep(sc: seq<Message>, pauseIgn: bool, s: State, e: Event)
    requires WellFormed(sc) && Shaped(sc, s) && Rests(sc, s) && Hung(sc, s)
    ensures var t := Step(sc, pauseIgn, s, e);
      t.msgIndex == s.msgIndex && t.sent == s.sent && Rests(sc, t) && Hung(sc, t)
  {
    if e.Arrive? {
      var p := e.p;
      var b := Break(sc, s.nbRecv, s.msgIndex);
      var k := FirstCandidate(sc, s, p, s.msgIndex);
      if k < |sc| {
        if b < |sc| && sc[b].Recv? {
          FitsIff(sc, s.callIds, b);
          StillNoFit(sc, s, k, p, sc[b].Dialog());
        }
        BreakStays(sc, s, k, p);
        assert AfterCredit(sc, Credit(sc, s, k, p), k) == Credit(sc, s, k, p);
      }
    }
  }

  lemma {:induction false} HungForEver(sc: seq<Message>, pauseIgn: bool, s: State, es: seq<Event>)
    requires WellFormed(sc) && Shaped(sc, s) && Rests(sc, s) && Hung(sc, s)
    ensures Exec(sc, pauseIgn, s, es).msgIndex == s.msgIndex && Exec(sc, pauseIgn, s, es).sent == s.sent
    decreases |es|
  {
    hide Rests, Hung, Step;
    if es != [] {
      HungStep(sc, pauseIgn, s, es[0]);
      HungForEver(sc, pauseIgn, Step(sc, pauseIgn, s, es[0]), es[1..]);
    }
  }

  // ---------- A call that is not hung can go on ----------

  lemma BreakIsCandidate(sc: seq<Message>, s: State)
    requires Shaped(sc, s) && s.msgIndex < |sc| && sc[s.msgIndex].Recv? && !Hung(sc, s)
    ensures var b := Break(sc, s.nbRecv, s.msgIndex);
      b < |sc| && Awaited(sc, s.nbRecv, b) && FirstCandidate(sc, s, Fitting(sc, s.callIds, b), s.msgIndex) == b
  {
    var i, b := s.msgIndex, Break(sc, s.nbRecv, s.msgIndex);
    FittingMatches(sc, s.callIds, b);
    forall j | i <= j < b ensures !Blocks(sc, s.nbRecv, j) {
      assert Passable(sc, s.nbRecv, j);
    }
    assert IsCandidate(sc, s, b, Fitting(sc, s.callIds, b));
  }

  lemma TakenBreakFrees(sc: seq<Message>, nr: seq<nat>, i: nat, b: nat)
    requires i <= b < |sc| == |nr| && Taken(sc, nr, b) && forall j :: i <= j < b ==> Passable(sc, nr, j)
    ensures !Awaited(sc, nr, i) && b <= LastInSequence(sc, nr, i)
  {
    assert InSequence(sc, nr, i, b);
    assert i < b ==> Passable(sc, nr, i);
  }

  lemma BreakMoves(sc: seq<Message>, pauseIgn: bool, s: State)
    requires WellFormed(sc) && Shaped(sc, s) && s.msgIndex < |sc| && sc[s.msgIndex].Recv? && !Hung(sc, s)
    ensures var b := Break(sc, s.nbRecv, s.msgIndex);
      b < |sc| && b < Incoming(sc, pauseIgn, s, Fitting(sc, s.callIds, b)).msgIndex
  {
    BreakIsCandidate(sc, s);
    hide Hung, Fitting, FirstCandidate, IsCandidate, NextFrom, LastInSequence, InSequence;
    var i, b := s.msgIndex, Break(sc, s.nbRecv, s.msgIndex);
    var t := Credit(sc, s, b, Fitting(sc, s.callIds, b));
    forall j | i <= j < b ensures Passable(sc, t.nbRecv, j) {
      assert Passable(sc, s.nbRecv, j);
    }
    TakenBreakFrees(sc, t.nbRecv, i, b);
  }

  /** Some continuation of the run takes the call elsewhere. */
  ghost predicate CanMove(sc: seq<Message>, pauseIgn: bool, s: State)
    requires Shaped(sc, s)
  {
    exists more :: Exec(sc, pauseIgn, s, more).msgIndex != s.msgIndex
  }

  lemma MovesBy(sc: seq<Message>, pauseIgn: bool, s: State, e: Event)
    requires Shaped(sc, s) && Step(sc, pauseIgn, s, e).msgIndex != s.msgIndex
    ensures CanMove(sc, pauseIgn, s)
  {
    var more := [e];
    assert more[1..] == [];
    assert Exec(sc, pauseIgn, s, more) == Exec(sc, pauseIgn, Step(sc, pauseIgn, s, e), []);
  }

  /** For every reachable state of every run, with arrivals during a pause ignored or not: something can
      still happen that moves the call if and only if it is not hung. */
  lemma CallMovesIff(sc: seq<Message>, pauseIgn: bool, ownId: string, es: seq<Event>)
    requires WellFormed(sc) && Run(sc, pauseIgn, ownId, es).msgIndex < |sc|
    ensures var s := Run(sc, pauseIgn, ownId, es);
      CanMove(sc, pauseIgn, s) <==> !Hung(sc, s)
  {
    var s := Run(sc, pauseIgn, ownId, es);
    RunRests(sc, pauseIgn, ownId, es);
    if Hung(sc, s) {
      forall more ensures Exec(sc, pauseIgn, s, more).msgIndex == s.msgIndex {
        HungForEver(sc, pauseIgn, s, more);
      }
    } else {
      var e := PauseOver;
      if sc[s.msgIndex].Recv? {
        BreakMoves(sc, pauseIgn, s);
        e := Arrive(Fitting(sc, s.callIds, Break(sc, s.nbRecv, s.msgIndex)));
      }
      MovesBy(sc, pauseIgn, s, e);
    }
  }

  // ---------- Arrivals during a pause, when they are not ignored ----------

  /** Without `-pause_msg_ign`, the place an arrival during a pause leaves the index in: either the
      jump goes nowhere, or it goes at least as far as the message that arrived. */
  ghost predicate PauseArrivalSafe(sc: seq<Message>, s: State, p: Packet)
    requires Shaped(sc, s) && s.msgIndex < |sc|
  {
    var k := FirstCandidate(sc, s, p, s.msgIndex);
    k == |sc| || !sc[k].advance ||
    var r := LastInSequence(sc, Credit(sc, s, k, p).nbRecv, s.msgIndex);
    r == s.msgIndex || k <= r
  }

  /** An arrival during a pause that is not ignored keeps the invariant exactly when it is safe. */
  lemma PauseArrivalKeepsIff(sc: seq<Message>, s: State, p: Packet)
    requires WellFormed(sc) && Inv(sc, s) && s.msgIndex < |sc| && sc[s.msgIndex].Pause?
    ensures Inv(sc, Incoming(sc, false, s, p)) <==> PauseArrivalSafe(sc, s, p)
  {
    var k := FirstCandidate(sc, s, p, s.msgIndex);
    if k < |sc| {
      CreditKeeps(sc, s, k, p);
      var t := Credit(sc, s, k, p);
      var r := LastInSequence(sc, t.nbRecv, s.msgIndex);
      if sc[k].advance && k <= r {
        PassKeeps(sc, t);
      } else if sc[k].advance && r != s.msgIndex {
        assert Taken(sc, t.nbRecv, r);
      }
    }
  }

  /** An unsafe arrival leaves the call at a message it already has. It waits there for ever if and only
      if the first entry it cannot step over is not a receive that some message can be credited to. */
  lemma UnsafeArrivalHangsIff(sc: seq<Message>, ownId: string, es: seq<Event>, p: Packet)
    requires WellFormed(sc)
    requires var s := Run(sc, false, ownId, es);
      s.msgIndex < |sc| && sc[s.msgIndex].Pause? && !PauseArrivalSafe(sc, s, p)
    ensures var s := Run(sc, false, ownId, es);
      var t := Credit(sc, s, FirstCandidate(sc, s, p, s.msgIndex), p);
      var r := LastInSequence(sc, t.nbRecv, s.msgIndex);
      var b := Break(sc, t.nbRecv, r);
      && Step(sc, false, s, Arrive(p)) == t.(msgIndex := r) && Taken(sc, t.nbRecv, r)
      && (!CanMove(sc, false, t.(msgIndex := r))
          <==> b == |sc| || !sc[b].Recv? || !CanFit(t.callIds, sc[b].Dialog()))
  {
    hide Hung;
    var s := Run(sc, false, ownId, es);
    var t := Step(sc, false, s, Arrive(p));
    RunAppends(sc, false, ownId, es, [Arrive(p)]);
    assert Exec(sc, false, s, [Arrive(p)]) == Exec(sc, false, t, []);
    CallMovesIff(sc, false, ownId, es + [Arrive(p)]);
    HungIs(sc, t);
  }

  lemma HungIs(sc: seq<Message>, s: State)
    requires Shaped(sc, s) && s.msgIndex < |sc| && sc[s.msgIndex].Recv?
    ensures var b := Break(sc, s.nbRecv, s.msgIndex);
      Hung(sc, s) <==> b == |sc| || !sc[b].Recv? || !CanFit(s.callIds, sc[b].Dialog())
  {
  }

  const PAUSED_SCENARIO: seq<Message> :=
    [Recv(0, false, true), Pause, Recv(1, false, true), Send(2, ""), Recv(3, false, true)]

  /** A packet without Call-ID that fits entry k alone is credited to k, if k's dialog is not held up. */
  lemma OnlyFit(sc: seq<Message>, s: State, k: nat)
    requires Shaped(sc, s) && s.msgIndex <= k < |sc| && Awaited(sc, s.nbRecv, k)
    requires BoundId(s.callIds, sc[k].Dialog()) == ""
    requires forall i :: s.msgIndex <= i < k && Blocks(sc, s.nbRecv, i) ==> sc[i].Dialog() != sc[k].Dialog()
    ensures FirstCandidate(sc, s, Packet("", {k}), s.msgIndex) == k
  {
    assert IsCandidate(sc, s, k, Packet("", {k}));
  }

  const HANG: seq<Event> := [Arrive(Packet("", {2})), Arrive(Packet("", {0})), Arrive(Packet("", {4}))]

  /** The first of the three: early, so only credited. */
  lemma HangFirst(ownId: string) returns (s: State)
    ensures s == Step(PAUSED_SCENARIO, false, RunFrom(PAUSED_SCENARIO, Created(PAUSED_SCENARIO, ownId)), HANG[0])
    ensures s == State(0, [0, 0, 1, 0, 0], map[-1 := ownId][1 := ""], [])
  {
    var sc := PAUSED_SCENARIO;
    var s0 := Created(sc, ownId);
    assert RunFrom(sc, s0) == s0 && s0.nbRecv == [0, 0, 0, 0, 0];
    OnlyFit(sc, s0, 2);
    s := Step(sc, false, s0, HANG[0]);
    assert Credit(sc, s0, 2, HANG[0].p) == State(0, [0, 0, 1, 0, 0], map[-1 := ownId][1 := ""], []);
  }

  /** The second starts the pause. */
  lemma HangSecond(ids: map<int, string>)
    requires BoundId(ids, 0) == ""
    ensures Step(PAUSED_SCENARIO, false, State(0, [0, 0, 1, 0, 0], ids, []), HANG[1])
            == State(1, [1, 0, 1, 0, 0], ids[0 := ""], [])
  {
    var sc := PAUSED_SCENARIO;
    var s := State(0, [0, 0, 1, 0, 0], ids, []);
    OnlyFit(sc, s, 0);
    var t := Credit(sc, s, 0, HANG[1].p);
    assert t == State(0, [1, 0, 1, 0, 0], ids[0 := ""], []);
    assert LastInSequence(sc, t.nbRecv, 0) == 0 by {
      assert !Passable(sc, t.nbRecv, 1);
    }
    assert NextFrom(sc, t) == RunFrom(sc, t.(msgIndex := 1));
  }

  /** The third moves the index to a message already received. */
  lemma HangThird(ids: map<int, string>)
    requires BoundId(ids, 3) == ""
    ensures Step(PAUSED_SCENARIO, false, State(1, [1, 0, 1, 0, 0], ids, []), HANG[2])
            == State(2, [1, 0, 1, 0, 1], ids[3 := ""], [])
  {
    var sc := PAUSED_SCENARIO;
    var s := State(1, [1, 0, 1, 0, 0], ids, []);
    OnlyFit(sc, s, 4);
    var t := Credit(sc, s, 4, HANG[2].p);
    assert t == State(1, [1, 0, 1, 0, 1], ids[3 := ""], []);
    assert LastInSequence(sc, t.nbRecv, 1) == 2 by {
      assert InSequence(sc, t.nbRecv, 1, 2);
      assert !Passable(sc, t.nbRecv, 3);
    }
  }

  lemma ExecThree(sc: seq<Message>, s: State, es: seq<Event>)
    requires Shaped(sc, s) && |es| == 3
    ensures Exec(sc, false, s, es)
            == Step(sc, false, Step(sc, false, Step(sc, false, s, es[0]), es[1]), es[2])
  {
    var t := Step(sc, false, Step(sc, false, s, es[0]), es[1]);
    assert es[1..][1..] == [es[2]];
    assert Exec(sc, false, t, [es[2]]) == Step(sc, false, t, es[2]);
  }

  /** A run that gets there: the second receive comes early, the first one starts the pause, and the
      last receive comes during it. */
  lemma HangReached(ownId: string) returns (s: State)
    ensures s == Run(PAUSED_SCENARIO, false, ownId, HANG)
    ensures s.msgIndex == 2 && s.nbRecv == [1, 0, 1, 0, 1] && s.sent == []
  {
    var s1 := HangFirst(ownId);
    HangSecond(s1.callIds);
    HangThird(s1.callIds[0 := ""]);
    ExecThree(PAUSED_SCENARIO, RunFrom(PAUSED_SCENARIO, Created(PAUSED_SCENARIO, ownId)), HANG);
    s := Run(PAUSED_SCENARIO, false, ownId, HANG);
  }

  /** The loader accepts the scenario. */
  lemma HangingScenarioLoads()
    ensures WellFormed(PAUSED_SCENARIO)
  {
  }

  /** The message waited for is there, and a SEND stands behind it. */
  lemma HungAtTwo(s: State)
    requires s.msgIndex == 2 && s.nbRecv == [1, 0, 1, 0, 1]
    ensures Shaped(PAUSED_SCENARIO, s) && Hung(PAUSED_SCENARIO, s)
  {
    assert Passable(PAUSED_SCENARIO, s.nbRecv, 2) && !Passable(PAUSED_SCENARIO, s.nbRecv, 3);
  }

  /** Whatever follows, the SEND is never performed. */
  lemma PauseArrivalsCanHangTheCall(ownId: string, more: seq<Event>)
    ensures Run(PAUSED_SCENARIO, false, ownId, HANG + more).msgIndex == 2
    ensures Run(PAUSED_SCENARIO, false, ownId, HANG + more).sent == []
  {
    var s := HangReached(ownId);
    RunAppends(PAUSED_SCENARIO, false, ownId, HANG, more);
    HangingScenarioLoads();
    RunRests(PAUSED_SCENARIO, false, ownId, HANG);
    hide *;
    HungAtTwo(s);
    HungForEver(PAUSED_SCENARIO, false, s, more);
  }
}
