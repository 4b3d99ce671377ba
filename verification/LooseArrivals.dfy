/** What one arrival and one SEND do in loose message sequence, said outright: which entry a message is
    credited to, when it moves the call, and which Call-ID a dialog has afterwards. */
module LooseArrivals {
  import opened Scenario
  import opened LooseSequence
  import opened LooseRuns
  import opened LooseHangs

  // ---------- Call-IDs ----------

  /** The owner of a Call-ID is the lowest dialog that holds it; the empty one, "-1" and an unknown one
      have none. */
  lemma OwnerOfCallId(ids: map<int, string>, id: string, d: int)
    ensures id == "" || id == "-1" ==> DialogOf(ids, id) == -2
    ensures (forall e :: e in ids ==> ids[e] != id) ==> DialogOf(ids, id) == -2
    ensures d in ids && ids[d] == id && id != "" && id != "-1" ==>
      var a := DialogOf(ids, id); a <= d && a in ids && ids[a] == id
  {
    assert d in ids && ids[d] == id ==> Holds(ids, d, id);
  }

  /** An entry without a dialog number takes a message of any Call-ID. */
  lemma NoDialogTakesAny(sc: seq<Message>, ids: map<int, string>, j: nat, p: Packet)
    requires j < |sc| && sc[j].Dialog() == -1
    ensures Matches(sc, ids, j, p) <==> sc[j].Recv? && j in p.fits
  {
  }

  /** A dialog that has a Call-ID takes messages with that one only, and does take them if it owns it. */
  lemma BoundDialogTakesItsOwn(sc: seq<Message>, ids: map<int, string>, j: nat, p: Packet)
    requires j < |sc| && sc[j].Recv? && j in p.fits && sc[j].Dialog() >= 0
    ensures var d := sc[j].Dialog();
      && (BoundId(ids, d) != "" && BoundId(ids, d) != p.callId ==> !Matches(sc, ids, j, p))
      && (BoundId(ids, d) == p.callId && DialogOf(ids, p.callId) == d ==> Matches(sc, ids, j, p))
      && (BoundId(ids, d) == "" && (forall e :: e in ids ==> ids[e] != p.callId) ==> Matches(sc, ids, j, p))
      && (BoundId(ids, d) == "" && 0 <= DialogOf(ids, p.callId) != d ==> !Matches(sc, ids, j, p))
  {
    OwnerOfCallId(ids, p.callId, sc[j].Dialog());
  }

  /** Performing a SEND gives its dialog the Call-ID it was sent with, unless the dialog has one, which it
      keeps; and running on does not change that. */
  lemma SendBinds(sc: seq<Message>, s: State)
    requires Shaped(sc, s) && s.msgIndex < |sc| && sc[s.msgIndex].Send?
    ensures var m, t := sc[s.msgIndex], RunFrom(sc, s);
      var before, after := BoundId(s.callIds, m.sendDialog), BoundId(t.callIds, m.sendDialog);
      && s.msgIndex in t.sent
      && (before != "" ==> after == before)
      && (before == "" && m.sendCallId != "" ==> after == m.sendCallId)
  {
    var u := Perform(sc, s);
    assert BoundId(s.callIds, sc[s.msgIndex].sendDialog) != "" ==> u.callIds == s.callIds;
    NextExtends(sc, u);
    NextSendsMore(sc, u);
    assert u.sent[|s.sent|] == s.msgIndex;
  }

  lemma {:induction false} RunSendsMore(sc: seq<Message>, s: State)
    requires Shaped(sc, s)
    ensures s.sent <= RunFrom(sc, s).sent
    decreases |sc| - s.msgIndex, 1
  {
    if s.msgIndex < |sc| && sc[s.msgIndex].Send? {
      NextSendsMore(sc, Perform(sc, s));
    } else if s.msgIndex < |sc| && sc[s.msgIndex].Nop? {
      NextSendsMore(sc, s);
    }
  }

  lemma {:induction false} NextSendsMore(sc: seq<Message>, s: State)
    requires Shaped(sc, s) && s.msgIndex < |sc|
    ensures s.sent <= NextFrom(sc, s).sent
    decreases |sc| - s.msgIndex, 0
  {
    RunSendsMore(sc, if sc[s.msgIndex].Recv? then s.(msgIndex := s.msgIndex + 1) else Jumped(sc, s));
  }

  /** The call's own id stays with dialog -1 in every run. */
  lemma OwnIdStays(sc: seq<Message>, pauseIgn: bool, ownId: string, es: seq<Event>)
    requires ownId != ""
    ensures BoundId(Run(sc, pauseIgn, ownId, es).callIds, -1) == ownId
  {
    var s := Created(sc, ownId);
    RunExtends(sc, s);
    CallIdsAreWriteOnce(sc, pauseIgn, RunFrom(sc, s), es);
    assert BoundId(s.callIds, -1) == ownId;
  }

  // ---------- Which entry takes a message ----------

  /** Only receives have been counted. */
  predicate OnlyReceives(sc: seq<Message>, s: State) {
    |s.nbRecv| == |sc| && forall j :: 0 <= j < |sc| && !sc[j].Recv? ==> s.nbRecv[j] == 0
  }

  /** Entry k takes the message: it matches; it is optional, however often it has come, or mandatory and
      has not come; and every entry of its dialog from the index on to k is a mandatory receive that has
      come, an optional one, or neither a receive nor a SEND. */
  ghost predicate Takes(sc: seq<Message>, s: State, k: nat, p: Packet)
    requires k < |sc| == |s.nbRecv|
  {
    && Matches(sc, s.callIds, k, p)
    && (sc[k].optional || s.nbRecv[k] == 0)
    && forall i :: s.msgIndex <= i < k && sc[i].Dialog() == sc[k].Dialog() ==>
         !sc[i].Send? && (sc[i].Recv? && !sc[i].optional ==> s.nbRecv[i] > 0)
  }

  lemma TakesIsCandidate(sc: seq<Message>, s: State, k: nat, p: Packet)
    requires OnlyReceives(sc, s) && k < |sc|
    ensures Takes(sc, s, k, p) <==> IsCandidate(sc, s, k, p)
  {
    MatchesIsReceive(sc, s.callIds, k, p);
    hide Matches;
  }

  lemma MatchesIsReceive(sc: seq<Message>, ids: map<int, string>, k: nat, p: Packet)
    requires k < |sc|
    ensures Matches(sc, ids, k, p) ==> sc[k].Recv?
  {
  }

  /** A message is credited to the first entry, from the index on, that takes it. */
  lemma FirstTakes(sc: seq<Message>, s: State, k: nat, p: Packet)
    requires Shaped(sc, s) && OnlyReceives(sc, s) && s.msgIndex <= k < |sc| && Takes(sc, s, k, p)
    requires forall i :: s.msgIndex <= i < k ==> !Takes(sc, s, i, p)
    ensures FirstCandidate(sc, s, p, s.msgIndex) == k
  {
    hide Takes, IsCandidate;
    forall i | s.msgIndex <= i <= k ensures Takes(sc, s, i, p) <==> IsCandidate(sc, s, i, p) {
      TakesIsCandidate(sc, s, i, p);
    }
  }

  /** Its counter goes up by one, whatever it was, no other counter changes, and its dialog then has the
      message's Call-ID. */
  lemma ArrivalIsCredited(sc: seq<Message>, pauseIgn: bool, s: State, k: nat, p: Packet)
    requires Shaped(sc, s) && OnlyReceives(sc, s) && s.msgIndex <= k < |sc| && Takes(sc, s, k, p)
    requires forall i :: s.msgIndex <= i < k ==> !Takes(sc, s, i, p)
    requires !(pauseIgn && sc[s.msgIndex].Pause?)
    ensures var t := Incoming(sc, pauseIgn, s, p);
      && t.nbRecv == s.nbRecv[k := s.nbRecv[k] + 1]
      && (sc[k].Dialog() != -1 && p.callId != "" ==> BoundId(t.callIds, sc[k].Dialog()) == p.callId)
  {
    FirstTakes(sc, s, k, p);
    var t := Credit(sc, s, k, p);
    assert sc[k].Dialog() != -1 ==> BoundId(t.callIds, sc[k].Dialog()) == p.callId;
    NextExtends(sc, t.(msgIndex := LastInSequence(sc, t.nbRecv, s.msgIndex)));
  }

  /** A message that no entry takes changes nothing. */
  lemma ArrivalIsLeft(sc: seq<Message>, pauseIgn: bool, s: State, p: Packet)
    requires Shaped(sc, s) && OnlyReceives(sc, s)
    requires forall i :: s.msgIndex <= i < |sc| ==> !Takes(sc, s, i, p)
    ensures Incoming(sc, pauseIgn, s, p) == s
  {
    hide Takes, IsCandidate;
    forall i | s.msgIndex <= i < |sc| ensures !IsCandidate(sc, s, i, p) {
      TakesIsCandidate(sc, s, i, p);
    }
  }

  /** An optional message, the first time or again, is counted and binds its dialog, and the call stays
      where it waits. */
  lemma OptionalArrivalStays(sc: seq<Message>, pauseIgn: bool, s: State, k: nat, p: Packet)
    requires Shaped(sc, s) && OnlyReceives(sc, s) && Rests(sc, s)
    requires s.msgIndex <= k < |sc| && sc[s.msgIndex].Recv? && sc[k].Optional() && Takes(sc, s, k, p)
    requires forall i :: s.msgIndex <= i < k ==> !Takes(sc, s, i, p)
    ensures var t := Incoming(sc, pauseIgn, s, p);
      t.msgIndex == s.msgIndex && t.sent == s.sent && t.nbRecv == s.nbRecv[k := s.nbRecv[k] + 1]
  {
    FirstTakes(sc, s, k, p);
    var t := Credit(sc, s, k, p);
    OptionalFreesNothing(sc, s, k, p);
    assert LastInSequence(sc, t.nbRecv, t.msgIndex) == t.msgIndex;
  }

  /** Nor does a message credited to an entry that leaves the state machine in place ever move the call,
      wherever it is. */
  lemma NoAdvanceStays(sc: seq<Message>, pauseIgn: bool, s: State, k: nat, p: Packet)
    requires Shaped(sc, s) && OnlyReceives(sc, s)
    requires s.msgIndex <= k < |sc| && Takes(sc, s, k, p) && sc[k].Recv? && !sc[k].advance
    requires forall i :: s.msgIndex <= i < k ==> !Takes(sc, s, i, p)
    ensures var t := Incoming(sc, pauseIgn, s, p); t.msgIndex == s.msgIndex && t.sent == s.sent
  {
    FirstTakes(sc, s, k, p);
  }

  // ---------- In every run ----------

  lemma StepOnlyReceives(sc: seq<Message>, pauseIgn: bool, s: State, e: Event)
    requires Shaped(sc, s) && OnlyReceives(sc, s)
    ensures OnlyReceives(sc, Step(sc, pauseIgn, s, e))
  {
  }

  lemma {:induction false} ExecOnlyReceives(sc: seq<Message>, pauseIgn: bool, s: State, es: seq<Event>)
    requires Shaped(sc, s) && OnlyReceives(sc, s)
    ensures OnlyReceives(sc, Exec(sc, pauseIgn, s, es))
    decreases |es|
  {
    hide Step;
    if es != [] {
      StepOnlyReceives(sc, pauseIgn, s, es[0]);
      ExecOnlyReceives(sc, pauseIgn, Step(sc, pauseIgn, s, es[0]), es[1..]);
    }
  }

  lemma RunOnlyReceives(sc: seq<Message>, pauseIgn: bool, ownId: string, es: seq<Event>)
    ensures OnlyReceives(sc, Run(sc, pauseIgn, ownId, es))
  {
    ExecOnlyReceives(sc, pauseIgn, RunFrom(sc, Created(sc, ownId)), es);
  }

  /** In every reachable state that waits at a receive, pauses ignored or not, a message goes to the first
      entry that takes it; if that one is optional the call stays, and the same message can come again. */
  lemma ReachableArrival(sc: seq<Message>, pauseIgn: bool, ownId: string, es: seq<Event>, k: nat, p: Packet)
    requires WellFormed(sc)
    requires var s := Run(sc, pauseIgn, ownId, es);
      && s.msgIndex <= k < |sc| && sc[s.msgIndex].Recv? && Takes(sc, s, k, p)
      && forall i :: s.msgIndex <= i < k ==> !Takes(sc, s, i, p)
    ensures var s, t := Run(sc, pauseIgn, ownId, es), Run(sc, pauseIgn, ownId, es + [Arrive(p)]);
      && t.nbRecv == s.nbRecv[k := s.nbRecv[k] + 1]
      && (sc[k].Dialog() != -1 && p.callId != "" ==> BoundId(t.callIds, sc[k].Dialog()) == p.callId)
      && (sc[k].optional ==> t.msgIndex == s.msgIndex && t.sent == s.sent)
  {
    hide Takes, Incoming;
    var s := Run(sc, pauseIgn, ownId, es);
    RunOnlyReceives(sc, pauseIgn, ownId, es);
    RunRests(sc, pauseIgn, ownId, es);
    RunAppends(sc, pauseIgn, ownId, es, [Arrive(p)]);
    var one := [Arrive(p)];
    assert one[1..] == [];
    assert Exec(sc, pauseIgn, s, one) == Exec(sc, pauseIgn, Step(sc, pauseIgn, s, Arrive(p)), []);
    ArrivalIsCredited(sc, pauseIgn, s, k, p);
    if sc[k].Optional() {
      OptionalArrivalStays(sc, pauseIgn, s, k, p);
    }
    assert Takes(sc, s, k, p) ==> sc[k].Recv? by {
      TakesIsReceive(sc, s, k, p);
    }
  }

  lemma TakesIsReceive(sc: seq<Message>, s: State, k: nat, p: Packet)
    requires k < |sc| == |s.nbRecv|
    ensures Takes(sc, s, k, p) ==> sc[k].Recv?
  {
  }
}
