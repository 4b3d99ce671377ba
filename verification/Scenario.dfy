/** A scenario as the XML loader leaves it: a list of messages with a dialog number each. The
    datatype has no branch target, jump action, `condexec`, command or global-optional entry, so every
    value of it is a linear scenario, the kind for which the `-mc` option enables the loose message
    sequence. */
module Scenario {

  datatype Message =
    | Send(sendDialog: int, sendCallId: string)
    | Recv(recvDialog: int, optional: bool, advance: bool)
    | Pause
    | Nop(nopDialog: int)
  {
    /** The dialog attribute; -1 when the element has none. */
    function Dialog(): int {
      match this
      case Send(d, _) => d
      case Recv(d, _, _) => d
      case Pause => -1
      case Nop(d) => d
    }

    predicate Optional() {
      Recv? && optional
    }

    /** A receive that the scenario cannot do without. */
    predicate MandatoryRecv() {
      Recv? && !optional
    }
  }

  /** What the loader accepts: an optional receive is always followed by another receive, and only
      an optional receive may leave the state machine where it is. */
  ghost predicate WellFormed(sc: seq<Message>) {
    && |sc| > 0
    && (forall k {:trigger sc[k].Optional()} :: 0 <= k < |sc| && sc[k].Optional() ==> k + 1 < |sc| && sc[k + 1].Recv?)
    && (forall k :: 0 <= k < |sc| && sc[k].Recv? && !sc[k].advance ==> sc[k].optional)
  }

  /** The loader's checks, element by element, with its one-bit memory of the last receive. The
      last element is read without asking whether there is one. */
  method LoadCheck(sc: seq<Message>) returns (ok: bool)
    requires |sc| > 0
    ensures ok <==> WellFormed(sc)
  {
    var lastRecvOptional := false;
    var k := 0;
    while k < |sc|
      invariant 0 <= k <= |sc|
      invariant lastRecvOptional <==> k > 0 && sc[k - 1].Optional()
      invariant forall j :: 0 <= j < k - 1 && sc[j].Optional() ==> sc[j + 1].Recv?
      invariant forall j :: 0 <= j < k && sc[j].Recv? && !sc[j].advance ==> sc[j].optional
    {
      if sc[k].Recv? {
        lastRecvOptional := sc[k].optional;
        if !sc[k].advance && !sc[k].optional {
          return false;
        }
      } else {
        if lastRecvOptional {
          assert sc[k - 1].Optional() && !sc[k].Recv?;
          return false;
        }
        lastRecvOptional := false;
      }
      k := k + 1;
    }
    ok := !sc[|sc| - 1].Optional();
  }
}
