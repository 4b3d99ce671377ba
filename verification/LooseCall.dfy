/** The call object in loose message sequence, as the program runs it. Each method is proved to do
    what LooseSequence.dfy says about the state before it; LooseRuns.dfy then speaks of whole runs. */
module LooseCall {
  import opened Scenario
  import opened LooseSequence

  class Call {
    const sc: seq<Message>
    const pauseIgn: bool
    var msgIndex: nat
    const nbRecv: array<nat>
    var callIds: map<int, string>
    ghost var sent: seq<nat>

    /** Only receives are ever counted. */
    ghost predicate Valid()
      reads this, nbRecv
    {
      && nbRecv.Length == |sc| && msgIndex <= |sc|
      && forall j :: 0 <= j < |sc| && !sc[j].Recv? ==> nbRecv[j] == 0
    }

    ghost function Abs(): (s: State)
      reads this, nbRecv
      requires Valid()
      ensures Shaped(sc, s)
    {
      State(msgIndex, nbRecv[..], callIds, sent)
    }

    constructor (sc: seq<Message>, pauseIgn: bool, ownId: string)
      ensures Valid() && fresh(nbRecv)
      ensures this.sc == sc && this.pauseIgn == pauseIgn
      ensures Abs() == Created(sc, ownId)
    {
      this.sc := sc;
      this.pauseIgn := pauseIgn;
      msgIndex := 0;
      nbRecv := new nat[|sc|](_ => 0);
      callIds := map[-1 := ownId];
      sent := [];
    }

    /** Looks through the per-dialog states in key order. */
    method GetDialogFrCallid(id: string) returns (d: int)
      ensures d == DialogOf(callIds, id)
    {
      if id == "" || |callIds| == 0 {
        return -2;
      }
      var rest := callIds.Keys;
      while exists w :: w in rest
        invariant rest <= callIds.Keys
        invariant forall e :: e in callIds && e !in rest ==> id == "-1" || !Holds(callIds, e, id)
        decreases rest
      {
        ghost var w :| w in rest;
        ghost var least := LeastExists(rest, w);
        var e :| e in rest && forall x :: x in rest ==> e <= x;
        assert forall x :: Holds(callIds, x, id) && id != "-1" ==> x in rest;
        if callIds[e] == id && id != "-1" {
          assert IsLeastHolder(callIds, e, id);
          return e;
        }
        rest := rest - {e};
      }
      return -2;
    }

    method MatchesScenario(j: nat, p: Packet) returns (result: bool)
      requires j < |sc|
      ensures result == Matches(sc, callIds, j, p)
    {
      var d := sc[j].Dialog();
      var active := GetDialogFrCallid(p.callId);
      if active >= 0 && d != -1 && d != active {
        return false;
      }
      result := sc[j].Recv? && j in p.fits;
      if result && d != -1 && BoundId(callIds, d) != "" && BoundId(callIds, d) != p.callId {
        result := false;
      }
    }

    /** Searches forward from the index, closing each dialog at its first unreceived mandatory entry. */
    method Search(p: Packet) returns (found: bool, k: nat)
      requires Valid()
      ensures k == FirstCandidate(sc, Abs(), p, msgIndex) && (found <==> k < |sc|)
    {
      ghost var s := Abs();
      var encountered: set<int> := {};
      k := msgIndex;
      while k < |sc|
        invariant msgIndex <= k <= |sc|
        invariant forall d :: d in encountered <==>
                    exists i :: msgIndex <= i < k && Blocks(sc, s.nbRecv, i) && sc[i].Dialog() == d
        invariant forall i :: msgIndex <= i < k ==> !IsCandidate(sc, s, i, p)
        invariant FirstCandidate(sc, s, p, msgIndex) == FirstCandidate(sc, s, p, k)
      {
        if sc[k].Dialog() !in encountered {
          var matches := MatchesScenario(k, p);
          if matches {
            if sc[k].Optional() || nbRecv[k] < CUMULATIVE_CALLS {
              return true, k;
            }
          } else if sc[k].Nop? || sc[k].Pause? || sc[k].Optional() {
          } else if nbRecv[k] < CUMULATIVE_CALLS {
            assert Blocks(sc, s.nbRecv, k);
            encountered := encountered + {sc[k].Dialog()};
          }
        }
        k := k + 1;
      }
      found := false;
    }

    /** Scans forward for the last message, received in advance, that the index may jump to. */
    method GetLastInsequenceReceivedMessage(from: nat) returns (candidate: nat)
      requires Valid() && from < |sc|
      ensures candidate == LastInSequence(sc, nbRecv[..], from)
    {
      candidate := from;
      if sc[from].Recv? && nbRecv[from] < CUMULATIVE_CALLS && !sc[from].Optional() {
        return;
      }
      ghost var nr := nbRecv[..];
      var j := from;
      while j < |sc| - 1
        invariant from <= candidate <= j < |sc|
        invariant InSequence(sc, nr, from, candidate)
        invariant forall k :: from < k <= j ==> Passable(sc, nr, k)
        invariant forall k :: candidate < k <= j ==> !InSequence(sc, nr, from, k)
      {
        if sc[j + 1].Send? {
          assert !Passable(sc, nr, j + 1);
          break;
        }
        if nbRecv[j + 1] >= CUMULATIVE_CALLS && !sc[j + 1].Optional() {
          candidate := j + 1;
        } else if !sc[j + 1].Optional() {
          assert !Passable(sc, nr, j + 1);
          break;
        }
        j := j + 1;
      }
      LastInSequenceIsLargest(sc, nr, from, candidate);
    }

    /** Leave the current message; false when the scenario is complete. */
    method Next() returns (going: bool)
      requires Valid() && msgIndex < |sc|
      modifies this
      ensures Valid() && Abs() == NextFrom(sc, old(Abs()))
      ensures going <==> msgIndex < |sc|
      decreases |sc| - msgIndex, 0
    {
      if !sc[msgIndex].Recv? {
        msgIndex := GetLastInsequenceReceivedMessage(msgIndex);
      }
      msgIndex := msgIndex + 1;
      if msgIndex >= |sc| {
        return false;
      }
      going := Run();
    }

    /** Execute the current message: a receive or a pause waits, anything else is done and left. */
    method Run() returns (going: bool)
      requires Valid()
      modifies this
      ensures Valid() && Abs() == RunFrom(sc, old(Abs()))
      ensures going <==> msgIndex < |sc|
      decreases |sc| - msgIndex, 1
    {
      if msgIndex == |sc| {
        return false;
      }
      match sc[msgIndex]
      case Recv(_, _, _) =>
        going := true;
      case Pause =>
        going := true;
      case Nop(_) =>
        going := Next();
      case Send(d, id) =>
        sent := sent + [msgIndex];
        callIds := Bind(callIds, d, id);
        going := Next();
    }

    /** Entry k has just been credited: update the state machine. */
    method Resume(k: nat) returns (going: bool)
      requires Valid() && msgIndex <= k < |sc| && sc[k].Recv?
      modifies this
      ensures Valid() && Abs() == AfterCredit(sc, old(Abs()), k)
      ensures going <==> msgIndex < |sc|
    {
      if !sc[k].advance {
        return true;
      }
      if k == msgIndex {
        if sc[k].optional {
          return true;
        }
        msgIndex := GetLastInsequenceReceivedMessage(msgIndex);
      } else {
        msgIndex := GetLastInsequenceReceivedMessage(msgIndex);
        if msgIndex < k {
          return true;
        }
      }
      going := Next();
    }

    /** One incoming message. */
    method ProcessIncoming(p: Packet) returns (going: bool)
      requires Valid() && msgIndex < |sc|
      modifies this, nbRecv
      ensures Valid() && Abs() == Incoming(sc, pauseIgn, old(Abs()), p)
      ensures going <==> msgIndex < |sc|
    {
      if pauseIgn && sc[msgIndex].Pause? {
        return true;
      }
      var found, k := Search(p);
      if !found {
        return true;
      }
      if sc[k].Dialog() != -1 {
        callIds := Bind(callIds, sc[k].Dialog(), p.callId);
      }
      nbRecv[k] := nbRecv[k] + 1;
      assert Abs() == Credit(sc, old(Abs()), k, p);
      going := Resume(k);
    }

    /** The timer of a pause fires. */
    method PauseExpired() returns (going: bool)
      requires Valid() && msgIndex < |sc| && sc[msgIndex].Pause?
      modifies this
      ensures Valid() && Abs() == Step(sc, pauseIgn, old(Abs()), PauseOver)
      ensures going <==> msgIndex < |sc|
    {
      going := Next();
    }
  }
}
