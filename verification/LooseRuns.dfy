/** What holds over every run of a call in loose message sequence. */
module LooseRuns {
  import opened Scenario
  import opened LooseSequence

  // ---------- Safety of whole runs, arrivals during pauses ignored ----------

  lemma StepKeeps(sc: seq<Message>, s: State, e: Event)
    requires WellFormed(sc) && Inv(sc, s)
    ensures Inv(sc, Step(sc, true, s, e))
  {
    if s.msgIndex < |sc| {
      if sc[s.msgIndex].Recv? {
        match e
        case Arrive(p) => ArrivalAtReceiveKeeps(sc, true, s, p);
        case PauseOver =>
      } else {
        match e
        case Arrive(p) =>
        case PauseOver =>
          JumpReady(sc, s);
          RunKeeps(sc, Jumped(sc, s));
      }
    }
  }

  lemma {:induction false} ExecKeeps(sc: seq<Message>, s: State, es: seq<Event>)
    requires WellFormed(sc) && Inv(sc, s)
    ensures Inv(sc, Exec(sc, true, s, es))
    decreases |es|
  {
    if es != [] {
      StepKeeps(sc, s, es[0]);
      ExecKeeps(sc, Step(sc, true, s, es[0]), es[1..]);
    }
  }

  /** Every reachable state satisfies the invariant. */
  lemma ReachableStates(sc: seq<Message>, ownId: string, es: seq<Event>)
    requires WellFormed(sc)
    ensures Inv(sc, Run(sc, true, ownId, es))
  {
    var s := Created(sc, ownId);
    assert Ready(sc, s);
    RunKeeps(sc, s);
    ExecKeeps(sc, RunFrom(sc, s), es);
  }

  lemma {:induction false} SendsBeforeAreTheSends(sc: seq<Message>, i: nat)
    requires i <= |sc|
    ensures forall j :: j in SendsBefore(sc, i) <==> 0 <= j < i && sc[j].Send?
    ensures forall a, b :: 0 <= a < b < |SendsBefore(sc, i)| ==> SendsBefore(sc, i)[a] < SendsBefore(sc, i)[b]
  {
    if i > 0 {
      SendsBeforeAreTheSends(sc, i - 1);
      var before := SendsBefore(sc, i - 1);
      assert forall a :: 0 <= a < |before| ==> before[a] in before;
    }
  }

  /** At every moment of every run: everything before the index is done exactly once and in order,
      no SEND from the index on has been performed, and nothing in a dialog was taken out of order. */
  lemma NothingSkippedNothingRepeated(sc: seq<Message>, ownId: string, es: seq<Event>)
    requires WellFormed(sc)
    ensures var s := Run(sc, true, ownId, es);
            && (forall j :: 0 <= j < s.msgIndex && sc[j].MandatoryRecv() ==> s.nbRecv[j] == 1)
            && (forall j :: 0 <= j < |sc| && sc[j].MandatoryRecv() ==> s.nbRecv[j] <= 1)
            && (forall j :: j in s.sent <==> 0 <= j < s.msgIndex && sc[j].Send?)
            && (forall a, b :: 0 <= a < b < |s.sent| ==> s.sent[a] < s.sent[b])
            && (forall i, j :: s.msgIndex <= i < j < |sc| && sc[j].MandatoryRecv() && s.nbRecv[j] == 1
                               && sc[i].Dialog() == sc[j].Dialog() && (sc[i].Send? || sc[i].MandatoryRecv())
                               ==> sc[i].Recv? && s.nbRecv[i] == 1)
  {
    var s := Run(sc, true, ownId, es);
    ReachableStates(sc, ownId, es);
    SendsBeforeAreTheSends(sc, s.msgIndex);
    forall i, j | s.msgIndex <= i < j < |sc| && sc[j].MandatoryRecv() && s.nbRecv[j] == 1
                  && sc[i].Dialog() == sc[j].Dialog() && (sc[i].Send? || sc[i].MandatoryRecv())
      ensures sc[i].Recv? && s.nbRecv[i] == 1
    {
      assert Taken(sc, s.nbRecv, j);
      assert !Blocks(sc, s.nbRecv, i);
    }
  }

  /** When a call ends, each mandatory receive was credited exactly once, and the messages sent are
      the scenario's SEND entries, each once, in scenario order. */
  lemma CompletedRun(sc: seq<Message>, ownId: string, es: seq<Event>)
    requires WellFormed(sc) && Run(sc, true, ownId, es).msgIndex == |sc|
    ensures var s := Run(sc, true, ownId, es);
            && (forall j :: 0 <= j < |sc| && sc[j].MandatoryRecv() ==> s.nbRecv[j] == 1)
            && (forall j :: j in s.sent <==> 0 <= j < |sc| && sc[j].Send?)
            && (forall a, b :: 0 <= a < b < |s.sent| ==> s.sent[a] < s.sent[b])
  {
    NothingSkippedNothingRepeated(sc, ownId, es);
  }

  // ---------- Progress ----------

  /** The awaited message always gets the call moving, unless an earlier optional takes it. */
  lemma AwaitedArrivalAdvances(sc: seq<Message>, pauseIgn: bool, s: State, f: nat, p: Packet)
    requires WellFormed(sc) && Inv(sc, s) && s.msgIndex < |sc| && sc[s.msgIndex].Recv?
    requires Front(sc, s.nbRecv, s.msgIndex, f) && Matches(sc, s.callIds, f, p)
    requires forall k :: s.msgIndex <= k < f ==> !Matches(sc, s.callIds, k, p)
    ensures f < Incoming(sc, pauseIgn, s, p).msgIndex
  {
    assert IsCandidate(sc, s, f, p);
    assert FirstCandidate(sc, s, p, s.msgIndex) == f;
    var t := Credit(sc, s, f, p);
    FrontTakenFreesTheIndex(sc, t.nbRecv, s.msgIndex, f);
  }

  /** In every reachable state that waits for a message, the next mandatory entry is a receive that
      has not come yet, and its coming moves the index strictly past it. */
  lemma WaitingStates(sc: seq<Message>, ownId: string, es: seq<Event>) returns (f: nat)
    requires WellFormed(sc)
    requires var s := Run(sc, true, ownId, es); s.msgIndex < |sc| && sc[s.msgIndex].Recv?
    ensures var s := Run(sc, true, ownId, es);
            && Front(sc, s.nbRecv, s.msgIndex, f)
            && forall p :: Matches(sc, s.callIds, f, p)
                 && (forall k :: s.msgIndex <= k < f ==> !Matches(sc, s.callIds, k, p))
                 ==> f < Run(sc, true, ownId, es + [Arrive(p)]).msgIndex
  {
    var s := Run(sc, true, ownId, es);
    ReachableStates(sc, ownId, es);
    f :| Front(sc, s.nbRecv, s.msgIndex, f);
    forall p | Matches(sc, s.callIds, f, p)
               && (forall k :: s.msgIndex <= k < f ==> !Matches(sc, s.callIds, k, p))
      ensures f < Run(sc, true, ownId, es + [Arrive(p)]).msgIndex
    {
      RunAppends(sc, true, ownId, es, [Arrive(p)]);
      AwaitedArrivalAdvances(sc, true, s, f, p);
      assert Exec(sc, true, Step(sc, true, s, Arrive(p)), []) == Step(sc, true, s, Arrive(p));
    }
  }

  lemma {:induction false} ExecAppends(sc: seq<Message>, pauseIgn: bool, s: State, es: seq<Event>, more: seq<Event>)
    requires Shaped(sc, s)
    ensures Exec(sc, pauseIgn, s, es + more) == Exec(sc, pauseIgn, Exec(sc, pauseIgn, s, es), more)
    decreases |es|
  {
    if es == [] {
      assert es + more == more;
    } else {
      assert (es + more)[1..] == es[1..] + more;
      ExecAppends(sc, pauseIgn, Step(sc, pauseIgn, s, es[0]), es[1..], more);
    }
  }

  lemma RunAppends(sc: seq<Message>, pauseIgn: bool, ownId: string, es: seq<Event>, more: seq<Event>)
    ensures Run(sc, pauseIgn, ownId, es + more) == Exec(sc, pauseIgn, Run(sc, pauseIgn, ownId, es), more)
  {
    ExecAppends(sc, pauseIgn, RunFrom(sc, Created(sc, ownId)), es, more);
  }

  // ---------- Call-ID binding ----------

  predicate Exempt(id: string) {
    id == "" || id == "-1"
  }

  /** Bindings already made are kept. */
  ghost predicate Extends(old_: map<int, string>, new_: map<int, string>) {
    forall d :: BoundId(old_, d) != "" ==> BoundId(new_, d) == BoundId(old_, d)
  }

  lemma {:induction false} RunExtends(sc: seq<Message>, s: State)
    requires Shaped(sc, s)
    ensures Extends(s.callIds, RunFrom(sc, s).callIds)
    decreases |sc| - s.msgIndex, 1
  {
    if s.msgIndex < |sc| && sc[s.msgIndex].Send? {
      NextExtends(sc, Perform(sc, s));
    } else if s.msgIndex < |sc| && sc[s.msgIndex].Nop? {
      NextExtends(sc, s);
    }
  }

  lemma {:induction false} NextExtends(sc: seq<Message>, s: State)
    requires Shaped(sc, s) && s.msgIndex < |sc|
    ensures Extends(s.callIds, NextFrom(sc, s).callIds)
    decreases |sc| - s.msgIndex, 0
  {
    var r := if sc[s.msgIndex].Recv? then s.msgIndex else LastInSequence(sc, s.nbRecv, s.msgIndex);
    RunExtends(sc, s.(msgIndex := r + 1));
  }

  /** A dialog's Call-ID is written once: whatever happens afterwards, it stays. */
  lemma {:induction false} CallIdsAreWriteOnce(sc: seq<Message>, pauseIgn: bool, s: State, es: seq<Event>)
    requires Shaped(sc, s)
    ensures Extends(s.callIds, Exec(sc, pauseIgn, s, es).callIds)
    decreases |es|
  {
    if es != [] {
      var t := Step(sc, pauseIgn, s, es[0]);
      StepExtends(sc, pauseIgn, s, es[0]);
      CallIdsAreWriteOnce(sc, pauseIgn, t, es[1..]);
    }
  }

  lemma StepExtends(sc: seq<Message>, pauseIgn: bool, s: State, e: Event)
    requires Shaped(sc, s)
    ensures Extends(s.callIds, Step(sc, pauseIgn, s, e).callIds)
  {
    if s.msgIndex < |sc| {
      match e
      case PauseOver =>
        if sc[s.msgIndex].Pause? {
          NextExtends(sc, s);
        }
      case Arrive(p) =>
        var k := FirstCandidate(sc, s, p, s.msgIndex);
        if k < |sc| {
          var t := Credit(sc, s, k, p);
          assert Extends(s.callIds, t.callIds);
          NextExtends(sc, t.(msgIndex := LastInSequence(sc, t.nbRecv, s.msgIndex)));
        }
    }
  }

  /** No two numbered dialogs own one Call-ID, unless a negative dialog (the call's own, say)
      holds it as well, or it is one of the two texts the lookup never finds. */
  ghost predicate Unique(ids: map<int, string>) {
    forall d, e :: 0 <= d < e && d in ids && e in ids && ids[d] == ids[e] && !Exempt(ids[d])
      ==> exists n :: n < 0 && Holds(ids, n, ids[d])
  }

  /** Two numbered dialogs own one Call-ID, and no negative dialog holds it. */
  ghost predicate Share(ids: map<int, string>, d: int, e: int) {
    && 0 <= d < e && d in ids && e in ids && ids[d] == ids[e] && !Exempt(ids[d])
    && forall n :: n < 0 ==> !Holds(ids, n, ids[d])
  }

  lemma UniqueMeansNoShare(ids: map<int, string>)
    ensures Unique(ids) <==> forall d, e :: !Share(ids, d, e)
  {
    if forall d, e :: !Share(ids, d, e) {
      forall d, e | 0 <= d < e && d in ids && e in ids && ids[d] == ids[e] && !Exempt(ids[d])
        ensures exists n :: n < 0 && Holds(ids, n, ids[d])
      {
        assert !Share(ids, d, e);
      }
    }
  }

  /** A received message never makes two numbered dialogs share a Call-ID, whatever they shared before. */
  lemma ArrivalNeverShares(sc: seq<Message>, s: State, k: nat, p: Packet, d: int, e: int)
    requires k < |sc| == |s.nbRecv| && Matches(sc, s.callIds, k, p)
    requires Share(Credit(sc, s, k, p).callIds, d, e)
    ensures Share(s.callIds, d, e)
  {
    var ids, after := s.callIds, Credit(sc, s, k, p).callIds;
    var bound := sc[k].Dialog();
    var active := DialogOf(ids, p.callId);
    assert forall x, id :: Holds(ids, x, id) && id != "" ==> Holds(after, x, id);
    assert Holds(ids, active, p.callId) ==> Holds(after, active, p.callId);
    assert d != bound ==> Holds(ids, d, after[d]);
    assert e != bound ==> Holds(ids, e, after[d]);
  }

  /** So it keeps Call-IDs apart where they are. */
  lemma ArrivalBindsUniquely(sc: seq<Message>, s: State, k: nat, p: Packet)
    requires k < |sc| == |s.nbRecv| && Matches(sc, s.callIds, k, p) && Unique(s.callIds)
    ensures Unique(Credit(sc, s, k, p).callIds)
  {
    var after := Credit(sc, s, k, p).callIds;
    UniqueMeansNoShare(s.callIds);
    UniqueMeansNoShare(after);
    forall d, e | Share(after, d, e) ensures Share(s.callIds, d, e) {
      ArrivalNeverShares(sc, s, k, p, d, e);
    }
  }

  // ---------- Who makes dialogs share a Call-ID ----------

  /** u is a state in which the call is about to perform a SEND, when it runs on from s. */
  ghost predicate RunSends(sc: seq<Message>, s: State, u: State)
    requires Shaped(sc, s)
    decreases |sc| - s.msgIndex, 1
  {
    s.msgIndex < |sc| &&
    match sc[s.msgIndex]
    case Send(_, _) => u == s || NextSends(sc, Perform(sc, s), u)
    case Nop(_) => NextSends(sc, s, u)
    case _ => false
  }

  ghost predicate NextSends(sc: seq<Message>, s: State, u: State)
    requires Shaped(sc, s) && s.msgIndex < |sc|
    decreases |sc| - s.msgIndex, 0
  {
    RunSends(sc, if sc[s.msgIndex].Recv? then s.(msgIndex := s.msgIndex + 1) else Jumped(sc, s), u)
  }

  /** The same, when event e happens in s. */
  ghost predicate StepSends(sc: seq<Message>, pauseIgn: bool, s: State, e: Event, u: State)
    requires Shaped(sc, s)
  {
    s.msgIndex < |sc| &&
    match e
    case PauseOver => sc[s.msgIndex].Pause? && NextSends(sc, s, u)
    case Arrive(p) =>
      !(pauseIgn && sc[s.msgIndex].Pause?) &&
      var k := FirstCandidate(sc, s, p, s.msgIndex);
      k < |sc| && sc[k].advance && !(k == s.msgIndex && sc[k].optional) &&
      var t := Credit(sc, s, k, p);
      var r := LastInSequence(sc, t.nbRecv, s.msgIndex);
      k <= r && NextSends(sc, t.(msgIndex := r), u)
  }

  ghost predicate ExecSends(sc: seq<Message>, pauseIgn: bool, s: State, es: seq<Event>, u: State)
    requires Shaped(sc, s)
    decreases |es|
  {
    es != [] &&
    (StepSends(sc, pauseIgn, s, es[0], u) || ExecSends(sc, pauseIgn, Step(sc, pauseIgn, s, es[0]), es[1..], u))
  }

  /** Performing the SEND that the call is at in u makes d and e share a Call-ID. */
  ghost predicate SendShares(sc: seq<Message>, u: State, d: int, e: int) {
    && u.msgIndex < |sc| && sc[u.msgIndex].Send?
    && !Share(u.callIds, d, e) && Share(Perform(sc, u).callIds, d, e)
  }

  lemma {:induction false} RunShares(sc: seq<Message>, s: State, d: int, e: int) returns (u: State)
    requires Shaped(sc, s) && !Share(s.callIds, d, e) && Share(RunFrom(sc, s).callIds, d, e)
    ensures RunSends(sc, s, u) && SendShares(sc, u, d, e)
    decreases |sc| - s.msgIndex, 1
  {
    if sc[s.msgIndex].Send? {
      if Share(Perform(sc, s).callIds, d, e) {
        u := s;
      } else {
        u := NextShares(sc, Perform(sc, s), d, e);
      }
    } else {
      u := NextShares(sc, s, d, e);
    }
  }

  lemma {:induction false} NextShares(sc: seq<Message>, s: State, d: int, e: int) returns (u: State)
    requires Shaped(sc, s) && s.msgIndex < |sc| && !Share(s.callIds, d, e) && Share(NextFrom(sc, s).callIds, d, e)
    ensures NextSends(sc, s, u) && SendShares(sc, u, d, e)
    decreases |sc| - s.msgIndex, 0
  {
    u := RunShares(sc, if sc[s.msgIndex].Recv? then s.(msgIndex := s.msgIndex + 1) else Jumped(sc, s), d, e);
  }

  lemma StepShares(sc: seq<Message>, pauseIgn: bool, s: State, event: Event, d: int, e: int) returns (u: State)
    requires Shaped(sc, s) && !Share(s.callIds, d, e) && Share(Step(sc, pauseIgn, s, event).callIds, d, e)
    ensures StepSends(sc, pauseIgn, s, event, u) && SendShares(sc, u, d, e)
  {
    hide Share, SendShares;
    match event
    case PauseOver => u := NextShares(sc, s, d, e);
    case Arrive(p) =>
      var k := FirstCandidate(sc, s, p, s.msgIndex);
      var t := Credit(sc, s, k, p);
      if Share(t.callIds, d, e) {
        ArrivalNeverShares(sc, s, k, p, d, e);
      }
      u := NextShares(sc, t.(msgIndex := LastInSequence(sc, t.nbRecv, s.msgIndex)), d, e);
  }

  lemma {:induction false} ExecShares(sc: seq<Message>, pauseIgn: bool, s: State, es: seq<Event>, d: int, e: int)
      returns (u: State)
    requires Shaped(sc, s) && !Share(s.callIds, d, e) && Share(Exec(sc, pauseIgn, s, es).callIds, d, e)
    ensures ExecSends(sc, pauseIgn, s, es, u) && SendShares(sc, u, d, e)
    decreases |es|
  {
    hide Share, SendShares, StepSends, Step;
    var t := Step(sc, pauseIgn, s, es[0]);
    if Share(t.callIds, d, e) {
      u := StepShares(sc, pauseIgn, s, es[0], d, e);
    } else {
      u := ExecShares(sc, pauseIgn, t, es[1..], d, e);
    }
  }

  /** Over every run of every scenario, with or without ignored pauses: when two numbered dialogs own
      one Call-ID that the call itself does not hold, it was a SEND of this run that made them. */
  lemma OnlySendsShareCallIds(sc: seq<Message>, pauseIgn: bool, ownId: string, es: seq<Event>, d: int, e: int)
      returns (u: State)
    requires Share(Run(sc, pauseIgn, ownId, es).callIds, d, e)
    ensures RunSends(sc, Created(sc, ownId), u) || ExecSends(sc, pauseIgn, RunFrom(sc, Created(sc, ownId)), es, u)
    ensures SendShares(sc, u, d, e)
  {
    var s := Created(sc, ownId);
    var t := RunFrom(sc, s);
    if Share(t.callIds, d, e) {
      u := RunShares(sc, s, d, e);
    } else {
      u := ExecShares(sc, pauseIgn, t, es, d, e);
    }
  }

  // ---------- Call-IDs kept apart ----------

  /** The Call-IDs written in the scenario's SEND elements differ between dialogs, and from the
      call's own, as far as numbered dialogs are concerned. */
  ghost predicate SendIdsApart(sc: seq<Message>, ownId: string) {
    && (forall i, j :: 0 <= i < |sc| && 0 <= j < |sc| && sc[i].Send? && sc[j].Send?
          && sc[i].sendDialog >= 0 && sc[i].sendDialog != sc[j].sendDialog && !Exempt(sc[i].sendCallId)
          ==> sc[i].sendCallId != sc[j].sendCallId)
    && (forall i :: 0 <= i < |sc| && sc[i].Send? && sc[i].sendDialog >= 0 && !Exempt(sc[i].sendCallId)
          ==> sc[i].sendCallId != ownId)
  }

  /** Entry i is a SEND still to come that will give its numbered dialog the Call-ID id. */
  predicate WillBind(sc: seq<Message>, s: State, i: nat, id: string)
    requires i < |sc|
  {
    && s.msgIndex <= i && sc[i].Send? && sc[i].sendDialog >= 0 && sc[i].sendCallId == id
    && BoundId(s.callIds, sc[i].sendDialog) == "" && !Exempt(id)
  }

  /** A Call-ID still to be sent is owned by nobody. */
  ghost predicate PendingFresh(sc: seq<Message>, s: State) {
    forall i, d, id :: 0 <= i < |sc| && WillBind(sc, s, i, id) ==> !Holds(s.callIds, d, id)
  }

  /** A peer does not quote a Call-ID before it has been sent. */
  ghost predicate Unquoted(sc: seq<Message>, s: State, e: Event) {
    e.Arrive? ==> forall i :: 0 <= i < |sc| ==> !WillBind(sc, s, i, e.p.callId)
  }

  ghost predicate UnquotedRun(sc: seq<Message>, s: State, es: seq<Event>)
    requires Shaped(sc, s)
    decreases |es|
  {
    es == [] || (Unquoted(sc, s, es[0]) && UnquotedRun(sc, Step(sc, true, s, es[0]), es[1..]))
  }

  ghost predicate IdsInOrder(sc: seq<Message>, s: State) {
    Unique(s.callIds) && PendingFresh(sc, s)
  }

  lemma PerformKeepsIds(sc: seq<Message>, ownId: string, s: State)
    requires SendIdsApart(sc, ownId) && IdsInOrder(sc, s)
    requires s.msgIndex < |sc| && sc[s.msgIndex].Send?
    ensures IdsInOrder(sc, Perform(sc, s))
  {
    var bound, id0 := sc[s.msgIndex].sendDialog, sc[s.msgIndex].sendCallId;
    var ids, after := s.callIds, Perform(sc, s).callIds;
    assert BoundId(ids, bound) == "" && bound >= 0 && !Exempt(id0) ==> WillBind(sc, s, s.msgIndex, id0);
    assert forall e, id :: Holds(ids, e, id) && id != "" ==> Holds(after, e, id);
    forall x, y | 0 <= x < y && x in after && y in after && after[x] == after[y] && !Exempt(after[x])
      ensures exists n :: n < 0 && Holds(after, n, after[x])
    {
      assert Holds(ids, x, after[x]) || (x == bound && BoundId(ids, x) == "");
      assert Holds(ids, y, after[x]) || (y == bound && BoundId(ids, y) == "");
      var n :| n < 0 && Holds(ids, n, ids[x]);
      assert Holds(after, n, after[x]);
    }
    forall i, d, id | 0 <= i < |sc| && WillBind(sc, Perform(sc, s), i, id)
      ensures !Holds(after, d, id)
    {
      assert WillBind(sc, s, i, id);
      assert sc[i].Send? && sc[s.msgIndex].Send?;
      assert Holds(after, d, id) ==> Holds(ids, d, id) || id == id0;
    }
  }

  lemma {:induction false} RunKeepsIds(sc: seq<Message>, ownId: string, s: State)
    requires SendIdsApart(sc, ownId) && Shaped(sc, s) && IdsInOrder(sc, s)
    ensures IdsInOrder(sc, RunFrom(sc, s))
    decreases |sc| - s.msgIndex, 1
  {
    if s.msgIndex < |sc| && sc[s.msgIndex].Send? {
      PerformKeepsIds(sc, ownId, s);
      NextKeepsIds(sc, ownId, Perform(sc, s));
    } else if s.msgIndex < |sc| && sc[s.msgIndex].Nop? {
      NextKeepsIds(sc, ownId, s);
    }
  }

  lemma {:induction false} NextKeepsIds(sc: seq<Message>, ownId: string, s: State)
    requires SendIdsApart(sc, ownId) && Shaped(sc, s) && IdsInOrder(sc, s) && s.msgIndex < |sc|
    ensures IdsInOrder(sc, NextFrom(sc, s))
    decreases |sc| - s.msgIndex, 0
  {
    var r := if sc[s.msgIndex].Recv? then s.msgIndex else LastInSequence(sc, s.nbRecv, s.msgIndex);
    LaterKeepsIds(sc, s, r + 1);
    RunKeepsIds(sc, ownId, s.(msgIndex := r + 1));
  }

  lemma LaterKeepsIds(sc: seq<Message>, s: State, m: nat)
    requires IdsInOrder(sc, s) && s.msgIndex <= m
    ensures IdsInOrder(sc, s.(msgIndex := m))
  {
    forall i, d, id | 0 <= i < |sc| && WillBind(sc, s.(msgIndex := m), i, id)
      ensures !Holds(s.callIds, d, id)
    {
      assert WillBind(sc, s, i, id);
    }
  }

  lemma CreditKeepsIds(sc: seq<Message>, s: State, k: nat, p: Packet)
    requires k < |sc| == |s.nbRecv| && Matches(sc, s.callIds, k, p)
    requires IdsInOrder(sc, s) && Unquoted(sc, s, Arrive(p))
    ensures IdsInOrder(sc, Credit(sc, s, k, p))
  {
    ArrivalBindsUniquely(sc, s, k, p);
    var t := Credit(sc, s, k, p);
    forall i, d, id | 0 <= i < |sc| && WillBind(sc, t, i, id)
      ensures !Holds(t.callIds, d, id)
    {
      assert WillBind(sc, s, i, id);
      assert Holds(t.callIds, d, id) ==> Holds(s.callIds, d, id) || id == p.callId;
    }
  }

  lemma StepKeepsIds(sc: seq<Message>, ownId: string, s: State, e: Event)
    requires SendIdsApart(sc, ownId) && Shaped(sc, s) && IdsInOrder(sc, s) && Unquoted(sc, s, e)
    ensures IdsInOrder(sc, Step(sc, true, s, e))
  {
    if s.msgIndex < |sc| {
      match e
      case PauseOver =>
        if sc[s.msgIndex].Pause? {
          NextKeepsIds(sc, ownId, s);
        }
      case Arrive(p) =>
        var k := FirstCandidate(sc, s, p, s.msgIndex);
        if k < |sc| {
          CreditKeepsIds(sc, s, k, p);
          var t := Credit(sc, s, k, p);
          var r := LastInSequence(sc, t.nbRecv, s.msgIndex);
          LaterKeepsIds(sc, t, r);
          NextKeepsIds(sc, ownId, t.(msgIndex := r));
        }
    }
  }

  lemma {:induction false} ExecKeepsIds(sc: seq<Message>, ownId: string, s: State, es: seq<Event>)
    requires SendIdsApart(sc, ownId) && Shaped(sc, s) && IdsInOrder(sc, s) && UnquotedRun(sc, s, es)
    ensures IdsInOrder(sc, Exec(sc, true, s, es))
    decreases |es|
  {
    if es != [] {
      StepKeepsIds(sc, ownId, s, es[0]);
      ExecKeepsIds(sc, ownId, Step(sc, true, s, es[0]), es[1..]);
    }
  }

  /** Over every run in which no Call-ID is quoted before it is sent, each Call-ID belongs to at most
      one numbered dialog. */
  lemma CallIdsStayUnique(sc: seq<Message>, ownId: string, es: seq<Event>)
    requires SendIdsApart(sc, ownId) && UnquotedRun(sc, RunFrom(sc, Created(sc, ownId)), es)
    ensures IdsInOrder(sc, Run(sc, true, ownId, es))
  {
    var s := Created(sc, ownId);
    assert IdsInOrder(sc, s);
    RunKeepsIds(sc, ownId, s);
    ExecKeepsIds(sc, ownId, RunFrom(sc, s), es);
  }

  // ---------- No reachable state is a dead end ----------

  /** A message can be found for a receive of dialog d: no other numbered dialog stands in its way. */
  ghost predicate CanFit(ids: map<int, string>, d: int) {
    d < 0 || forall e :: !Share(ids, e, d)
  }

  /** The message to send: it fits entry f alone and quotes the Call-ID of f's dialog, if it has one. */
  function Fitting(sc: seq<Message>, ids: map<int, string>, f: nat): Packet
    requires f < |sc|
  {
    Packet(if sc[f].Dialog() == -1 then "" else BoundId(ids, sc[f].Dialog()), {f})
  }

  lemma FittingMatches(sc: seq<Message>, ids: map<int, string>, f: nat)
    requires f < |sc| && sc[f].Recv? && CanFit(ids, sc[f].Dialog())
    ensures Matches(sc, ids, f, Fitting(sc, ids, f))
  {
    var d := sc[f].Dialog();
    var id := Fitting(sc, ids, f).callId;
    var active := DialogOf(ids, id);
    assert d >= 0 && active >= 0 ==> !Share(ids, active, d);
    assert d != -1 && !Exempt(id) ==> Holds(ids, d, id);
  }

  lemma MatchingFits(sc: seq<Message>, ids: map<int, string>, f: nat, p: Packet)
    requires f < |sc| && Matches(sc, ids, f, p)
    ensures CanFit(ids, sc[f].Dialog())
  {
    var active := DialogOf(ids, p.callId);
    assert forall e :: Share(ids, e, sc[f].Dialog()) ==> Holds(ids, e, p.callId) && !Exempt(p.callId);
    assert forall e :: Holds(ids, e, p.callId) && !Exempt(p.callId) ==> Holds(ids, active, p.callId) && active <= e;
  }

  /** Some message matches a receive exactly when its dialog shares its Call-ID with none before it. */
  lemma FitsIff(sc: seq<Message>, ids: map<int, string>, f: nat)
    requires f < |sc| && sc[f].Recv?
    ensures (exists p :: Matches(sc, ids, f, p)) <==> CanFit(ids, sc[f].Dialog())
  {
    hide Matches, CanFit;
    if CanFit(ids, sc[f].Dialog()) {
      FittingMatches(sc, ids, f);
    }
    if p :| Matches(sc, ids, f, p) {
      MatchingFits(sc, ids, f, p);
    }
  }

  /** What the environment can do next so that the call moves on: let the pause end, or send the message
      awaited, for which the Call-IDs must leave room. */
  lemma EnablingEvent(sc: seq<Message>, s: State) returns (e: Event)
    requires WellFormed(sc) && Inv(sc, s) && PendingFresh(sc, s) && s.msgIndex < |sc|
    requires forall f: nat :: Front(sc, s.nbRecv, s.msgIndex, f) ==> CanFit(s.callIds, sc[f].Dialog())
    ensures Unquoted(sc, s, e) && s.msgIndex < Step(sc, true, s, e).msgIndex
  {
    if sc[s.msgIndex].Pause? {
      e := PauseOver;
    } else {
      var f: nat :| Front(sc, s.nbRecv, s.msgIndex, f);
      var p := Fitting(sc, s.callIds, f);
      FittingMatches(sc, s.callIds, f);
      e := Arrive(p);
      if !Exempt(p.callId) {
        assert Holds(s.callIds, sc[f].Dialog(), p.callId);
      }
      AwaitedArrivalAdvances(sc, true, s, f, p);
    }
  }

  lemma {:induction false} CanFinish(sc: seq<Message>, ownId: string, s: State) returns (es: seq<Event>)
    requires WellFormed(sc) && SendIdsApart(sc, ownId) && Inv(sc, s) && IdsInOrder(sc, s)
    ensures UnquotedRun(sc, s, es) && Exec(sc, true, s, es).msgIndex == |sc|
    decreases |sc| - s.msgIndex
  {
    if s.msgIndex == |sc| {
      es := [];
    } else {
      UniqueMeansNoShare(s.callIds);
      var e := EnablingEvent(sc, s);
      var t := Step(sc, true, s, e);
      StepKeeps(sc, s, e);
      StepKeepsIds(sc, ownId, s, e);
      var rest := CanFinish(sc, ownId, t);
      es := [e] + rest;
      assert es[1..] == rest;
    }
  }

  /** From every reachable state there is a continuation that completes the scenario, if neither the
      scenario nor the peer gives one Call-ID to two dialogs. */
  lemma NeverStuck(sc: seq<Message>, ownId: string, es: seq<Event>) returns (more: seq<Event>)
    requires WellFormed(sc) && SendIdsApart(sc, ownId)
    requires UnquotedRun(sc, RunFrom(sc, Created(sc, ownId)), es)
    ensures UnquotedRun(sc, Run(sc, true, ownId, es), more)
    ensures Run(sc, true, ownId, es + more).msgIndex == |sc|
  {
    ReachableStates(sc, ownId, es);
    CallIdsStayUnique(sc, ownId, es);
    more := CanFinish(sc, ownId, Run(sc, true, ownId, es));
    RunAppends(sc, true, ownId, es, more);
  }
}
