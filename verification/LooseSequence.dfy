/** The loose message sequence of the `-mc` mode: messages of different dialogs may arrive out of
    order. This module says, on immutable states, what one arrival, one pause expiry and one run of
    the call do, and proves what holds over every run. LooseCall.dfy holds the imperative call. */
module LooseSequence {
  import opened Scenario

  /** Counters are compared with the number of calls made so far; `-mc` stops after one call. */
  const CUMULATIVE_CALLS: nat := 1

  /** An incoming message: its Call-ID, and the scenario entries whose request or response pattern
      it satisfies (methods, codes, regular expressions and transactions are not looked into). */
  datatype Packet = Packet(callId: string, fits: set<nat>)

  datatype Event = Arrive(p: Packet) | PauseOver

  /** `sent` lists the SEND entries performed so far, oldest first. */
  datatype State = State(msgIndex: nat, nbRecv: seq<nat>, callIds: map<int, string>, sent: seq<nat>)

  // ---------- Call-ID bookkeeping ----------

  function BoundId(ids: map<int, string>, d: int): string {
    if d in ids then ids[d] else ""
  }

  predicate Holds(ids: map<int, string>, d: int, id: string) {
    d in ids && ids[d] == id
  }

  ghost predicate IsLeastHolder(ids: map<int, string>, d: int, id: string) {
    Holds(ids, d, id) && forall e :: Holds(ids, e, id) ==> d <= e
  }

  /** The dialog that currently owns a Call-ID: the first in key order, -2 if there is none. The
      empty Call-ID and the text "-1" never match. */
  ghost predicate IsDialogOf(ids: map<int, string>, id: string, d: int) {
    if id == "" || id == "-1" || (forall e :: !Holds(ids, e, id)) then d == -2
    else IsLeastHolder(ids, d, id)
  }

  lemma LeastExists(s: set<int>, w: int) returns (m: int)
    requires w in s
    ensures m in s && forall e :: e in s ==> m <= e
    decreases s
  {
    m := w;
    if v :| v in s && v < w {
      m := LeastExists(s - {w}, v);
      assert forall e :: e in s ==> e == w || e in s - {w};
    }
  }

  lemma DialogExists(ids: map<int, string>, id: string)
    ensures exists d :: IsDialogOf(ids, id, d)
  {
    if id == "" || id == "-1" || (forall e :: !Holds(ids, e, id)) {
      assert IsDialogOf(ids, id, -2);
    } else {
      var holders := set e | e in ids.Keys && Holds(ids, e, id);
      var w :| Holds(ids, w, id);
      assert w in holders;
      var d := LeastExists(holders, w);
      assert forall e :: Holds(ids, e, id) ==> e in holders;
      assert IsDialogOf(ids, id, d);
    }
  }

  ghost function DialogOf(ids: map<int, string>, id: string): (d: int)
    ensures IsDialogOf(ids, id, d)
  {
    DialogExists(ids, id);
    var d :| IsDialogOf(ids, id, d);
    d
  }

  function Bind(ids: map<int, string>, d: int, id: string): map<int, string> {
    if BoundId(ids, d) == "" then ids[d := id] else ids
  }

  /** Whether a packet may be taken for entry j, by its pattern and by its Call-ID. */
  ghost predicate Matches(sc: seq<Message>, ids: map<int, string>, j: nat, p: Packet)
    requires j < |sc|
  {
    var d := sc[j].Dialog();
    var active := DialogOf(ids, p.callId);
    && sc[j].Recv? && j in p.fits
    && (active < 0 || d == -1 || d == active)
    && (d == -1 || BoundId(ids, d) == "" || BoundId(ids, d) == p.callId)
  }

  // ---------- One arrival ----------

  /** A SEND, or a mandatory receive, that has not been received: nothing later of its dialog may
      overtake it. */
  predicate Blocks(sc: seq<Message>, nr: seq<nat>, j: nat)
    requires j < |sc| == |nr|
  {
    (sc[j].Send? || sc[j].MandatoryRecv()) && nr[j] < CUMULATIVE_CALLS
  }

  ghost predicate IsCandidate(sc: seq<Message>, s: State, j: nat, p: Packet)
    requires j < |sc| == |s.nbRecv|
  {
    && Matches(sc, s.callIds, j, p)
    && (sc[j].Optional() || s.nbRecv[j] < CUMULATIVE_CALLS)
    && forall i :: s.msgIndex <= i < j && Blocks(sc, s.nbRecv, i) ==> sc[i].Dialog() != sc[j].Dialog()
  }

  /** The first entry at or after j that the packet can be credited to; |sc| if there is none. */
  ghost function FirstCandidate(sc: seq<Message>, s: State, p: Packet, j: nat): (k: nat)
    requires j <= |sc| == |s.nbRecv|
    ensures j <= k <= |sc|
    ensures k < |sc| ==> IsCandidate(sc, s, k, p)
    ensures forall i :: j <= i < k ==> !IsCandidate(sc, s, i, p)
    decreases |sc| - j
  {
    if j == |sc| || IsCandidate(sc, s, j, p) then j else FirstCandidate(sc, s, p, j + 1)
  }

  /** Entries the state machine may step over: optional receives, and mandatory ones received. */
  predicate Passable(sc: seq<Message>, nr: seq<nat>, j: nat)
    requires j < |sc| == |nr|
  {
    sc[j].Recv? && (sc[j].optional || nr[j] >= CUMULATIVE_CALLS)
  }

  predicate Taken(sc: seq<Message>, nr: seq<nat>, j: nat)
    requires j < |sc| == |nr|
  {
    sc[j].MandatoryRecv() && nr[j] >= CUMULATIVE_CALLS
  }

  predicate Awaited(sc: seq<Message>, nr: seq<nat>, j: nat)
    requires j < |sc| == |nr|
  {
    sc[j].MandatoryRecv() && nr[j] < CUMULATIVE_CALLS
  }

  ghost predicate InSequence(sc: seq<Message>, nr: seq<nat>, i: nat, r: nat)
    requires i <= r < |sc| == |nr|
  {
    && (r == i || Taken(sc, nr, r))
    && forall k :: i < k <= r ==> Passable(sc, nr, k)
  }

  ghost function LastInSequenceUpTo(sc: seq<Message>, nr: seq<nat>, i: nat, r: nat): (q: nat)
    requires i <= r < |sc| == |nr|
    ensures i <= q <= r && InSequence(sc, nr, i, q)
    ensures forall k :: q < k <= r ==> !InSequence(sc, nr, i, k)
  {
    if InSequence(sc, nr, i, r) then r else LastInSequenceUpTo(sc, nr, i, r - 1)
  }

  /** How far the index may jump from i: nowhere if i is still awaited, otherwise to the furthest
      received mandatory message reached over optional and received entries only. */
  ghost function LastInSequence(sc: seq<Message>, nr: seq<nat>, i: nat): (q: nat)
    requires i < |sc| == |nr|
    ensures i <= q < |sc| && InSequence(sc, nr, i, q)
  {
    if Awaited(sc, nr, i) then i else LastInSequenceUpTo(sc, nr, i, |sc| - 1)
  }

  // ---------- Moving on ----------

  ghost predicate Shaped(sc: seq<Message>, s: State) {
    s.msgIndex <= |sc| == |s.nbRecv|
  }

  function Perform(sc: seq<Message>, s: State): State
    requires s.msgIndex < |sc| && sc[s.msgIndex].Send?
  {
    var m := sc[s.msgIndex];
    s.(sent := s.sent + [s.msgIndex], callIds := Bind(s.callIds, m.sendDialog, m.sendCallId))
  }

  /** Execute from the current index until a receive, a pause or the end. */
  ghost function RunFrom(sc: seq<Message>, s: State): (t: State)
    requires Shaped(sc, s)
    ensures Shaped(sc, t) && t.nbRecv == s.nbRecv && s.msgIndex <= t.msgIndex
    ensures t.msgIndex < |sc| ==> sc[t.msgIndex].Recv? || sc[t.msgIndex].Pause?
    decreases |sc| - s.msgIndex, 1
  {
    if s.msgIndex == |sc| then s
    else match sc[s.msgIndex]
      case Recv(_, _, _) => s
      case Pause => s
      case Nop(_) => NextFrom(sc, s)
      case Send(_, _) => NextFrom(sc, Perform(sc, s))
  }

  /** The index one past the furthest entry it may jump to. */
  ghost function Jumped(sc: seq<Message>, s: State): (t: State)
    requires Shaped(sc, s) && s.msgIndex < |sc|
    ensures Shaped(sc, t) && s.msgIndex < t.msgIndex
  {
    s.(msgIndex := LastInSequence(sc, s.nbRecv, s.msgIndex) + 1)
  }

  /** Leave the current entry. Only a non-receive looks for messages that came early. */
  ghost function NextFrom(sc: seq<Message>, s: State): (t: State)
    requires Shaped(sc, s) && s.msgIndex < |sc|
    ensures Shaped(sc, t) && t.nbRecv == s.nbRecv && s.msgIndex < t.msgIndex
    ensures t.msgIndex < |sc| ==> sc[t.msgIndex].Recv? || sc[t.msgIndex].Pause?
    decreases |sc| - s.msgIndex, 0
  {
    RunFrom(sc, if sc[s.msgIndex].Recv? then s.(msgIndex := s.msgIndex + 1) else Jumped(sc, s))
  }

  function Credit(sc: seq<Message>, s: State, k: nat, p: Packet): State
    requires k < |sc| == |s.nbRecv|
  {
    var d := sc[k].Dialog();
    s.(nbRecv := s.nbRecv[k := s.nbRecv[k] + 1],
       callIds := if d == -1 then s.callIds else Bind(s.callIds, d, p.callId))
  }

  /** After entry k has been credited: does the state machine move, and from where? */
  ghost function AfterCredit(sc: seq<Message>, s: State, k: nat): State
    requires Shaped(sc, s) && s.msgIndex <= k < |sc| && sc[k].Recv?
  {
    if !sc[k].advance || (k == s.msgIndex && sc[k].optional) then s
    else
      var r := LastInSequence(sc, s.nbRecv, s.msgIndex);
      if r < k then s.(msgIndex := r) else NextFrom(sc, s.(msgIndex := r))
  }

  /** One incoming message. One that no entry can take is left to the unexpected-message handling,
      which is not modelled: where that lets the call go on, nothing has changed. With `pauseIgn`
      everything that arrives during a pause is ignored. */
  ghost function Incoming(sc: seq<Message>, pauseIgn: bool, s: State, p: Packet): (t: State)
    requires Shaped(sc, s)
    ensures Shaped(sc, t)
  {
    if s.msgIndex == |sc| || (pauseIgn && sc[s.msgIndex].Pause?) then s
    else
      var k := FirstCandidate(sc, s, p, s.msgIndex);
      if k == |sc| then s else AfterCredit(sc, Credit(sc, s, k, p), k)
  }

  ghost function Step(sc: seq<Message>, pauseIgn: bool, s: State, e: Event): (t: State)
    requires Shaped(sc, s)
    ensures Shaped(sc, t)
  {
    match e
    case Arrive(p) => Incoming(sc, pauseIgn, s, p)
    case PauseOver => if s.msgIndex < |sc| && sc[s.msgIndex].Pause? then NextFrom(sc, s) else s
  }

  /** A call as created: the default dialog -1 holds the call's own id. */
  function Created(sc: seq<Message>, ownId: string): State {
    State(0, seq(|sc|, _ => 0), map[-1 := ownId], [])
  }

  ghost function Exec(sc: seq<Message>, pauseIgn: bool, s: State, es: seq<Event>): (t: State)
    requires Shaped(sc, s)
    ensures Shaped(sc, t)
    decreases |es|
  {
    if es == [] then s else Exec(sc, pauseIgn, Step(sc, pauseIgn, s, es[0]), es[1..])
  }

  ghost function Run(sc: seq<Message>, pauseIgn: bool, ownId: string, es: seq<Event>): (t: State)
    ensures Shaped(sc, t)
  {
    Exec(sc, pauseIgn, RunFrom(sc, Created(sc, ownId)), es)
  }

  // ---------- The invariant ----------

  /** The SEND entries before index i, in scenario order. */
  function SendsBefore(sc: seq<Message>, i: nat): seq<nat>
    requires i <= |sc|
  {
    if i == 0 then [] else SendsBefore(sc, i - 1) + (if sc[i - 1].Send? then [i - 1] else [])
  }

  ghost predicate Accounted(sc: seq<Message>, s: State) {
    && Shaped(sc, s)
    && (forall j :: 0 <= j < |sc| && !sc[j].Recv? ==> s.nbRecv[j] == 0)
    && (forall j :: 0 <= j < |sc| && sc[j].MandatoryRecv() ==> s.nbRecv[j] <= 1)
    && (forall j :: 0 <= j < s.msgIndex && sc[j].MandatoryRecv() ==> s.nbRecv[j] == 1)
    && s.sent == SendsBefore(sc, s.msgIndex)
  }

  /** A received mandatory message ahead of the index has nothing of its dialog left before it. */
  ghost predicate DialogOrder(sc: seq<Message>, s: State)
    requires Shaped(sc, s)
  {
    forall i, j {:trigger Blocks(sc, s.nbRecv, i), Taken(sc, s.nbRecv, j)} ::
      s.msgIndex <= i < j < |sc| && Taken(sc, s.nbRecv, j) && sc[i].Dialog() == sc[j].Dialog()
      ==> !Blocks(sc, s.nbRecv, i)
  }

  /** f is the next mandatory entry from i on, and it is a receive still to come. */
  ghost predicate Front(sc: seq<Message>, nr: seq<nat>, i: nat, f: nat)
    requires |nr| == |sc|
  {
    && i <= f < |sc|
    && Awaited(sc, nr, f)
    && forall k :: i <= k < f ==> sc[k].Optional()
  }

  ghost predicate Settled(sc: seq<Message>, s: State)
    requires Shaped(sc, s)
  {
    || s.msgIndex == |sc|
    || sc[s.msgIndex].Pause?
    || (sc[s.msgIndex].Recv? && exists f :: Front(sc, s.nbRecv, s.msgIndex, f))
  }

  ghost predicate Inv(sc: seq<Message>, s: State) {
    Accounted(sc, s) && DialogOrder(sc, s) && Settled(sc, s)
  }

  /** No received mandatory message can be reached from m over passable entries alone. */
  ghost predicate AtBreak(sc: seq<Message>, nr: seq<nat>, m: nat)
    requires m <= |sc| == |nr|
  {
    forall r :: m <= r < |sc| && Taken(sc, nr, r) ==> exists k :: m <= k < r && !Passable(sc, nr, k)
  }

  /** What holds of an index just reached, before the entry there is executed. */
  ghost predicate Ready(sc: seq<Message>, s: State) {
    Accounted(sc, s) && DialogOrder(sc, s) && AtBreak(sc, s.nbRecv, s.msgIndex)
  }

  // ---------- How far the index may jump ----------

  /** The jump is the largest in-sequence index, unless the start itself is awaited. */
  lemma LastInSequenceIsLargest(sc: seq<Message>, nr: seq<nat>, i: nat, r: nat)
    requires i < |sc| == |nr|
    ensures r == LastInSequence(sc, nr, i) <==>
            if Awaited(sc, nr, i) then r == i
            else i <= r < |sc| && InSequence(sc, nr, i, r) &&
                 forall k :: r < k < |sc| ==> !InSequence(sc, nr, i, k)
  {
  }

  /** Every entry the jump steps over may be stepped over. */
  lemma JumpPasses(sc: seq<Message>, nr: seq<nat>, i: nat)
    requires i < |sc| == |nr|
    ensures forall k :: i < k <= LastInSequence(sc, nr, i) ==>
              sc[k].Recv? && (sc[k].optional || nr[k] >= CUMULATIVE_CALLS)
  {
    forall k | i < k <= LastInSequence(sc, nr, i)
      ensures sc[k].Recv? && (sc[k].optional || nr[k] >= CUMULATIVE_CALLS)
    {
      assert Passable(sc, nr, k);
    }
  }

  lemma JumpLandsAtBreak(sc: seq<Message>, nr: seq<nat>, i: nat)
    requires i < |sc| == |nr| && !Awaited(sc, nr, i)
    ensures AtBreak(sc, nr, LastInSequence(sc, nr, i) + 1)
  {
    var q := LastInSequence(sc, nr, i);
    forall r | q + 1 <= r < |sc| && Taken(sc, nr, r)
      ensures exists k :: q + 1 <= k < r && !Passable(sc, nr, k)
    {
      assert !InSequence(sc, nr, i, r);
      var k :| i < k <= r && !Passable(sc, nr, k);
      assert k > q && k != r;
    }
  }

  /** At a break that is a receive, the next mandatory entry is one still to come: this is where
      the load-time rule on optional receives is needed. */
  lemma FrontAtBreak(sc: seq<Message>, nr: seq<nat>, m: nat) returns (f: nat)
    requires WellFormed(sc) && m < |sc| == |nr| && sc[m].Recv? && AtBreak(sc, nr, m)
    ensures Front(sc, nr, m, f)
    decreases |sc| - m
  {
    if sc[m].optional {
      assert sc[m].Optional() && Passable(sc, nr, m);
      forall r | m + 1 <= r < |sc| && Taken(sc, nr, r)
        ensures exists k :: m + 1 <= k < r && !Passable(sc, nr, k)
      {
        var k :| m <= k < r && !Passable(sc, nr, k);
        assert k != m;
      }
      f := FrontAtBreak(sc, nr, m + 1);
    } else {
      f := m;
      assert !Taken(sc, nr, m);
    }
  }

  lemma SendsOverReceives(sc: seq<Message>, i: nat, r: nat)
    requires i <= r <= |sc|
    requires forall k :: i <= k < r ==> !sc[k].Send?
    ensures SendsBefore(sc, r) == SendsBefore(sc, i)
  {
  }

  // ---------- Running keeps the invariant ----------

  /** Running on from a place that is ready ends in a settled state. */
  lemma RunKeeps(sc: seq<Message>, s: State)
    requires WellFormed(sc) && Ready(sc, s)
    ensures Inv(sc, RunFrom(sc, s))
    decreases |sc| - s.msgIndex
  {
    var i := s.msgIndex;
    if i < |sc| {
      if sc[i].Recv? {
        var f := FrontAtBreak(sc, s.nbRecv, i);
      } else if sc[i].Nop? {
        JumpReady(sc, s);
        RunKeeps(sc, Jumped(sc, s));
      } else if sc[i].Send? {
        JumpAfterSendReady(sc, s);
        RunKeeps(sc, Jumped(sc, Perform(sc, s)));
      }
    }
  }

  /** The index may move to m when everything up to m is accounted for. */
  lemma MoveKeeps(sc: seq<Message>, s: State, m: nat)
    requires Accounted(sc, s) && DialogOrder(sc, s) && s.msgIndex <= m <= |sc|
    requires forall j :: s.msgIndex <= j < m ==> !sc[j].Send? && (sc[j].MandatoryRecv() ==> s.nbRecv[j] >= 1)
    ensures Accounted(sc, s.(msgIndex := m)) && DialogOrder(sc, s.(msgIndex := m))
  {
    SendsOverReceives(sc, s.msgIndex, m);
  }

  lemma PerformKeeps(sc: seq<Message>, s: State)
    requires Accounted(sc, s) && DialogOrder(sc, s)
    requires s.msgIndex < |sc| && sc[s.msgIndex].Send?
    ensures Accounted(sc, Perform(sc, s).(msgIndex := s.msgIndex + 1))
    ensures DialogOrder(sc, Perform(sc, s).(msgIndex := s.msgIndex + 1))
  {
  }

  /** Jumping over what came early, then one entry further. */
  lemma JumpReady(sc: seq<Message>, s: State)
    requires Accounted(sc, s) && DialogOrder(sc, s)
    requires s.msgIndex < |sc| && !Awaited(sc, s.nbRecv, s.msgIndex) && !sc[s.msgIndex].Send?
    ensures Ready(sc, Jumped(sc, s))
  {
    JumpPasses(sc, s.nbRecv, s.msgIndex);
    JumpLandsAtBreak(sc, s.nbRecv, s.msgIndex);
    MoveKeeps(sc, s, LastInSequence(sc, s.nbRecv, s.msgIndex) + 1);
  }

  lemma JumpAfterSendReady(sc: seq<Message>, s: State)
    requires Accounted(sc, s) && DialogOrder(sc, s)
    requires s.msgIndex < |sc| && sc[s.msgIndex].Send?
    ensures Ready(sc, Jumped(sc, Perform(sc, s)))
  {
    var i := s.msgIndex;
    var r := LastInSequence(sc, s.nbRecv, i);
    JumpPasses(sc, s.nbRecv, i);
    JumpLandsAtBreak(sc, s.nbRecv, i);
    PerformKeeps(sc, s);
    MoveKeeps(sc, Perform(sc, s).(msgIndex := i + 1), r + 1);
  }

  /** Crediting a candidate keeps the accounts and the order within each dialog. */
  lemma CreditKeeps(sc: seq<Message>, s: State, k: nat, p: Packet)
    requires WellFormed(sc) && Accounted(sc, s) && DialogOrder(sc, s)
    requires s.msgIndex <= k < |sc| && IsCandidate(sc, s, k, p)
    ensures Accounted(sc, Credit(sc, s, k, p)) && DialogOrder(sc, Credit(sc, s, k, p))
  {
    var t := Credit(sc, s, k, p);
    forall i, j | t.msgIndex <= i < j < |sc| && Taken(sc, t.nbRecv, j) && sc[i].Dialog() == sc[j].Dialog()
      ensures !Blocks(sc, t.nbRecv, i)
    {
      if j != k {
        assert Taken(sc, s.nbRecv, j);
      }
      assert !Blocks(sc, s.nbRecv, i);
    }
  }

  /** Having jumped, leaving the entry jumped to is running on from the one after it. */
  lemma NextAfterJump(sc: seq<Message>, s: State)
    requires Shaped(sc, s) && s.msgIndex < |sc|
    requires sc[s.msgIndex].Recv? || s.msgIndex < LastInSequence(sc, s.nbRecv, s.msgIndex)
    ensures NextFrom(sc, s.(msgIndex := LastInSequence(sc, s.nbRecv, s.msgIndex))) == RunFrom(sc, Jumped(sc, s))
  {
  }

  lemma PassKeeps(sc: seq<Message>, s: State)
    requires WellFormed(sc) && Accounted(sc, s) && DialogOrder(sc, s)
    requires s.msgIndex < |sc| && !Awaited(sc, s.nbRecv, s.msgIndex) && !sc[s.msgIndex].Send?
    requires sc[s.msgIndex].Recv? || s.msgIndex < LastInSequence(sc, s.nbRecv, s.msgIndex)
    ensures Inv(sc, NextFrom(sc, s.(msgIndex := LastInSequence(sc, s.nbRecv, s.msgIndex))))
  {
    NextAfterJump(sc, s);
    JumpReady(sc, s);
    RunKeeps(sc, Jumped(sc, s));
  }

  /** While the next mandatory receive is outstanding the index cannot leave its place. */
  lemma FrontHoldsTheIndex(sc: seq<Message>, nr: seq<nat>, i: nat, f: nat)
    requires i < |sc| == |nr| && Front(sc, nr, i, f)
    ensures LastInSequence(sc, nr, i) == i
  {
    JumpPasses(sc, nr, i);
  }

  /** Once it has come, the index can jump over it. */
  lemma FrontTakenFreesTheIndex(sc: seq<Message>, nr: seq<nat>, i: nat, f: nat)
    requires i <= f < |sc| == |nr| && Taken(sc, nr, f)
    requires forall k :: i <= k < f ==> sc[k].Optional()
    ensures !Awaited(sc, nr, i) && f <= LastInSequence(sc, nr, i)
  {
    assert InSequence(sc, nr, i, f);
  }

  lemma ArrivalAtReceiveKeeps(sc: seq<Message>, pauseIgn: bool, s: State, p: Packet)
    requires WellFormed(sc) && Inv(sc, s) && s.msgIndex < |sc| && sc[s.msgIndex].Recv?
    ensures Inv(sc, Incoming(sc, pauseIgn, s, p))
  {
    var i := s.msgIndex;
    var k := FirstCandidate(sc, s, p, i);
    if k < |sc| {
      CreditKeeps(sc, s, k, p);
      var t := Credit(sc, s, k, p);
      var f :| Front(sc, s.nbRecv, i, f);
      if k == f {
        FrontTakenFreesTheIndex(sc, t.nbRecv, i, f);
        PassKeeps(sc, t);
      } else {
        assert Front(sc, t.nbRecv, i, f);
        FrontHoldsTheIndex(sc, t.nbRecv, i, f);
        assert Settled(sc, t);
      }
    }
  }
}
