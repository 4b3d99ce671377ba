/** The route set and the remote target that a dialog takes from its Record-Route and Contact headers
    (sections 12.1 and 12.2.1.1 of RFC 3261). Headers are texts; Record-Route entries are separated by
    commas. */
module RouteSet {
  import opened Delimited

  datatype Option<T> = None | Some(value: T)

  const LR := ";lr"

  // ---------- Searching ----------

  predicate Contains(text: string, word: string) {
    exists i :: 0 <= i <= |text| - |word| && text[i..][..|word|] == word
  }

  /** The last comma before position i, or -1. */
  function LastComma(text: string, i: nat): (p: int)
    requires i <= |text|
    ensures -1 <= p < i && (forall j :: p < j < i ==> text[j] != ',') && (p >= 0 ==> text[p] == ',')
  {
    if i == 0 then -1 else if text[i - 1] == ',' then i - 1 else LastComma(text, i - 1)
  }

  /** The address inside angle brackets, if there are any. No closing bracket after the opening one
      makes the source read through a null pointer. */
  function Uri(text: string): Option<string> {
    var open := Next(text, '<', 0);
    if open == |text| then Some(text)
    else
      var close := Next(text, '>', open + 1);
      if close == |text| then None else Some(text[open + 1..close])
  }

  /** The word stands somewhere in the text. */
  lemma ContainsMeans(text: string, word: string)
    ensures Contains(text, word) <==> exists before, after :: text == before + word + after
  {
    if Contains(text, word) {
      var i :| 0 <= i <= |text| - |word| && text[i..][..|word|] == word;
      assert text == text[..i] + word + text[i..][|word|..];
    }
    if before, after :| text == before + word + after {
      assert text[|before|..][..|word|] == word;
    }
  }

  /** The address is what stands between the first opening bracket and the first closing one behind it;
      without an opening bracket it is the text itself. */
  lemma UriBetweenBrackets(before: string, address: string, after: string)
    requires '<' !in before && '>' !in address
    ensures Uri(before) == Some(before)
    ensures Uri(before + "<" + address) == None
    ensures Uri(before + "<" + address + ">" + after) == Some(address)
  {
    BracketIn(before, "", '<');
    assert before + "" == before;
    var open := before + "<" + address;
    assert open == before + ("<" + address);
    BracketIn(before, "<" + address, '<');
    BehindBracket(before, address, "");
    assert open + "" == open;
    BracketIn(before, "<" + address + ">" + after, '<');
    BehindBracket(before, address, ">" + after);
    assert before + ("<" + address + ">" + after) == open + ">" + after == open + (">" + after);
    assert (open + (">" + after))[|before| + 1..|before| + 1 + |address|] == address;
  }

  lemma BracketIn(before: string, rest: string, c: char)
    requires c !in before && (rest == "" || rest[0] == c)
    ensures Next(before + rest, c, 0) == |before|
  {
    hide Next;
    var text := before + rest;
    assert forall j :: 0 <= j < |before| ==> text[j] == before[j] && before[j] in before;
    assert rest != "" ==> text[|before|] == c;
  }

  lemma BehindBracket(before: string, address: string, rest: string)
    requires '>' !in address && (rest == "" || rest[0] == '>')
    ensures Next(before + "<" + address + rest, '>', |before| + 1) == |before| + 1 + |address|
  {
    hide Next;
    var front, tail := before + "<", address + rest;
    assert before + "<" + address + rest == front + tail;
    BracketIn(address, rest, '>');
    DropFront(front, tail);
    NextShift(front + tail, '>', |front|, 0);
  }

  lemma DropFront(a: string, b: string)
    ensures (a + b)[|a|..] == b
  {
  }

  function Entries(rr: string): (entries: seq<string>)
    ensures |entries| >= 1
  {
    Split(rr, ',', 0)
  }

  function Reverse(parts: seq<string>): (r: seq<string>)
    ensures |r| == |parts|
  {
    if parts == [] then [] else Reverse(parts[1..]) + [parts[0]]
  }

  // ---------- What the standard says ----------

  datatype Routes = Routes(route: seq<string>, target: string)

  /** The first hop on the way back is the last entry. A loose router stays in the set, and requests
      go to the contact; a strict router becomes the target, and the contact goes to the end. */
  function Standard(entries: seq<string>, contact: string): Routes
    requires entries != []
  {
    var n := |entries| - 1;
    if Contains(entries[n], LR) then Routes(Reverse(entries), contact)
    else Routes(Reverse(entries[..n]) + [contact], entries[n])
  }

  /** The first hop for the callee is the first entry, and the list keeps its order. */
  function StandardRequest(entries: seq<string>, contact: string): Routes
    requires entries != []
  {
    if Contains(entries[0], LR) then Routes(entries, contact)
    else Routes(entries[1..] + [contact], entries[0])
  }

  // ---------- What the code does ----------

  /** Route set and target as texts. */
  datatype Result = Result(route: string, target: string)

  function WithContact(route: string, contact: string): string {
    if route == "" then contact else route + "," + contact
  }

  function FromResponse(entries: seq<string>, contact: string): Result
    requires entries != []
  {
    var n := |entries| - 1;
    if Contains(entries[n], LR) then Result(Join(Reverse(entries), ','), contact)
    else Result(WithContact(Join(Reverse(entries[..n]), ','), contact), entries[n])
  }

  /** A request's list is cut at its first comma only. */
  function FromRequest(entries: seq<string>, contact: string): Result
    requires entries != []
  {
    if |entries| == 1 then
      if Contains(entries[0], LR) then Result(entries[0], contact) else Result(contact, entries[0])
    else
      var rest := Join(entries[1..], ',');
      if Contains(rest, LR) then Result(rest + "," + entries[0], contact)
      else Result(WithContact(entries[0], contact), rest)
  }

  function Computed(rr: string, contact: string, fromRequest: bool): Result {
    if fromRequest then FromRequest(Entries(rr), contact) else FromResponse(Entries(rr), contact)
  }

  /** Entries in reverse order, each followed by a comma. */
  function Trail(parts: seq<string>): string {
    if parts == [] then "" else Trail(parts[1..]) + parts[0] + ","
  }

  lemma {:induction false} TrailJoins(parts: seq<string>)
    requires parts != []
    ensures Trail(parts[1..]) + parts[0] == Join(Reverse(parts), ',')
    ensures Trail(parts) == Join(Reverse(parts), ',') + ","
  {
    if |parts| == 1 {
      assert Reverse(parts) == [] + [parts[0]];
    } else {
      TrailJoins(parts[1..]);
      JoinSnoc(Reverse(parts[1..]), parts[0], ',');
    }
  }

  predicate IsLastComma(text: string, p: nat) {
    p < |text| && text[p] == ',' && forall j :: p < j < |text| ==> text[j] != ','
  }

  lemma SplitAtLast(text: string)
    requires LastComma(text, |text|) >= 0
    ensures var p := LastComma(text, |text|); Split(text, ',', 0) == Split(text[..p], ',', 0) + [text[p + 1..]]
  {
    SplitAtLastFrom(text, 0, LastComma(text, |text|));
  }

  lemma {:induction false} SplitAtLastFrom(text: string, i: nat, p: nat)
    requires i <= p < |text| && IsLastComma(text, p)
    ensures Split(text, ',', i) == Split(text[..p], ',', i) + [text[p + 1..]]
    decreases |text| - i
  {
    hide *;
    var q := Next(text, ',', i);
    FirstCut(text, i, p);
    if q < p {
      SplitAtLastFrom(text, q + 1, p);
      var part, parts, last := text[i..q], Split(text[..p], ',', q + 1), text[p + 1..];
      OneInFront(part, parts, last);
      calc {
        Split(text, ',', i);
        [part] + (parts + [last]);
        [part] + parts + [last];
      }
    }
  }

  /** The first piece from position i on, of the text and of what lies before its last comma. */
  lemma FirstCut(text: string, i: nat, p: nat)
    requires i <= p && IsLastComma(text, p)
    ensures var q, before := Next(text, ',', i), text[..p];
      && q <= p
      && (q < p ==> Split(text, ',', i) == [text[i..q]] + Split(text, ',', q + 1))
      && (q < p ==> Split(before, ',', i) == [text[i..q]] + Split(before, ',', q + 1))
      && (q == p ==> Split(text, ',', i) == Split(before, ',', i) + [text[p + 1..]])
  {
    var q := Next(text, ',', i);
    assert q <= p;
    NextInPrefix(text, p, i);
    LastPiece(text, p);
    hide Split, Next, IsLastComma;
    SplitUnfolds(text, ',', i);
    SplitUnfolds(text[..p], ',', i);
    PrefixSlices(text, p, i, q);
  }

  lemma LastPiece(text: string, p: nat)
    requires IsLastComma(text, p)
    ensures Split(text, ',', p + 1) == [text[p + 1..]]
  {
    SplitNone(text, p + 1);
  }

  lemma PrefixSlices(text: string, p: nat, i: nat, q: nat)
    requires i <= q && i <= p <= |text|
    ensures text[..p][i..] == text[i..p] && (q <= p ==> text[..p][i..q] == text[i..q])
  {
  }

  lemma OneInFront(part: string, parts: seq<string>, last: string)
    ensures [part] + (parts + [last]) == [part] + parts + [last]
  {
  }

  lemma NextInPrefix(text: string, p: nat, i: nat)
    requires i <= p <= |text|
    ensures Next(text[..p], ',', i) == if Next(text, ',', i) < p then Next(text, ',', i) else p
  {
  }

  lemma SplitNone(text: string, i: nat)
    requires i <= |text| && forall j :: i <= j < |text| ==> text[j] != ','
    ensures Split(text, ',', i) == [text[i..]]
  {
  }

  lemma SplitAtFirst(text: string)
    requires Next(text, ',', 0) < |text|
    ensures var p := Next(text, ',', 0); Entries(text)[0] == text[..p] && Join(Entries(text)[1..], ',') == text[p + 1..]
    ensures |Entries(text)| >= 2
  {
    var p := Next(text, ',', 0);
    JoinOfSplit(text, ',', p + 1);
    assert Entries(text)[1..] == Split(text, ',', p + 1);
  }

  /** A router is loose if its entry has ";lr" in it: then, alone, it is the route set, and requests go to
      the contact; otherwise they go to it, and the contact is the route set. */
  lemma LooseIsMarked(before: string, after: string, strict: string, contact: string)
    requires forall b, a :: strict != b + ";lr" + a
    ensures FromResponse([before + ";lr" + after], contact) == Result(before + ";lr" + after, contact)
    ensures FromResponse([strict], contact) == Result(contact, strict)
  {
    hide Contains;
    ContainsMeans(before + ";lr" + after, LR);
    ContainsMeans(strict, LR);
  }

  /** The comma in front does not make a word. */
  lemma CommaAside(text: string, p: nat)
    requires p < |text| && text[p] == ','
    ensures Contains(text[p..], LR) <==> Contains(text[p + 1..], LR)
  {
    var a, b := text[p..], text[p + 1..];
    forall i | 0 <= i <= |b| - 3 ensures a[i + 1..] == b[i..] {
    }
    if Contains(a, LR) {
      var i :| 0 <= i <= |a| - |LR| && a[i..][..|LR|] == LR;
      assert a[i..][..|LR|][0] == LR[0];
      assert i > 0;
      assert b[i - 1..] == a[i..];
    }
    if Contains(b, LR) {
      var i :| 0 <= i <= |b| - |LR| && b[i..][..|LR|] == LR;
      assert a[i + 1..] == b[i..];
    }
  }

  class DialogState {
    var dialogRouteSet: Option<string>
    var nextReqUrl: string

    /** False when a bracket is missing; the source does not survive that. */
    method FormatNextReqUrl() returns (ok: bool)
      modifies this`nextReqUrl
      ensures ok <==> Uri(old(nextReqUrl)).Some?
      ensures nextReqUrl == if ok then Uri(old(nextReqUrl)).value else old(nextReqUrl)
    {
      var open := Next(nextReqUrl, '<', 0);
      if open < |nextReqUrl| {
        var buffer := nextReqUrl[open + 1..];
        var close := Next(buffer, '>', 0);
        NextShift(nextReqUrl, '>', open + 1, 0);
        if close == |buffer| {
          return false;
        }
        nextReqUrl := buffer[..close];
      }
      return true;
    }

    method ComputeRouteSetAndRemoteTargetUri(rr: string, contact: string, bRequestIncoming: bool) returns (ok: bool)
      modifies this
      ensures rr == "" ==> dialogRouteSet == old(dialogRouteSet)
      ensures rr == "" ==>
        var url := if contact != "" then contact else old(nextReqUrl);
        ok == Uri(url).Some? && nextReqUrl == if ok then Uri(url).value else url
      ensures rr != "" ==>
        var r := Computed(rr, contact, bRequestIncoming);
        && dialogRouteSet == (if r.route != "" then Some(r.route) else old(dialogRouteSet))
        && ok == (r.target == "" || Uri(r.target).Some?)
        && nextReqUrl == if r.target == "" then old(nextReqUrl) else if ok then Uri(r.target).value else r.target
    {
      if rr == "" {
        if contact != "" {
          nextReqUrl := contact;
        }
        ok := FormatNextReqUrl();
        return;
      }
      hide Computed;
      var actualRr, targetUri := ScanEntries(rr, contact, bRequestIncoming);
      if actualRr != "" {
        dialogRouteSet := Some(actualRr);
      }
      ok := true;
      if targetUri != "" {
        nextReqUrl := targetUri;
        ok := FormatNextReqUrl();
      }
    }
  }

  // ---------- The scan ----------

  /** What the scan holds: the route set so far, the target, whether the contact goes to its end. */
  datatype Scan = Scan(actual: string, target: string, copy: bool)

  /** The first entry looked at decides. `shown` is the text searched for the loose-router mark. */
  function First(entry: string, shown: string, contact: string, more: bool): Scan {
    if Contains(shown, LR) then Scan(if more then entry + "," else entry, contact, false)
    else Scan("", entry, true)
  }

  function Finished(s: Scan, contact: string): Result {
    Result(if s.copy then WithContact(s.actual, contact) else s.actual, s.target)
  }

  /** What the scan holds with entries m and up behind it. A request's scan gets there in one turn. */
  function Held(entries: seq<string>, contact: string, fromRequest: bool, m: nat): Scan
    requires 1 <= m < |entries|
  {
    var n := |entries| - 1;
    if fromRequest then
      var rest := Join(entries[1..], ',');
      First(rest, rest, contact, true)
    else
      var s := First(entries[n], entries[n], contact, true);
      s.(actual := Trail(if s.copy then entries[m..n] else entries[m..]))
  }

  /** The position the scan cuts at, -1 if there is none. */
  function Comma(rr: string, fromRequest: bool): (p: int)
    ensures -1 <= p < |rr| && (p >= 0 ==> rr[p] == ',')
  {
    if !fromRequest then LastComma(rr, |rr|)
    else if Next(rr, ',', 0) == |rr| then -1 else Next(rr, ',', 0)
  }

  lemma NoComma(rr: string, fromRequest: bool)
    requires Comma(rr, fromRequest) < 0
    ensures Entries(rr) == [rr]
  {
  }

  /** The last comma in use: what lies before it, and the entry after it. */
  lemma CutLast(rr: string)
    requires Comma(rr, false) >= 0
    ensures var p := Comma(rr, false); Entries(rr) == Entries(rr[..p]) + [rr[p + 1..]]
  {
    SplitAtLast(rr);
  }

  lemma FirstTurn(rr: string, contact: string, fromRequest: bool)
    requires Comma(rr, fromRequest) >= 0
    ensures var p := Comma(rr, fromRequest);
      var entries := Entries(rr);
      var m := |Entries(rr[..p])|;
      && 1 <= m < |entries| && Entries(rr[..p]) == entries[..m] && (fromRequest ==> m == 1)
      && First(rr[p + 1..], rr[p..], contact, true) == Held(entries, contact, fromRequest, m)
  {
    var p := Comma(rr, fromRequest);
    CommaAside(rr, p);
    hide Contains;
    if fromRequest {
      SplitAtFirst(rr);
      NextInPrefix(rr, p, 0);
      SplitNone(rr[..p], 0);
    } else {
      CutLast(rr);
      var entries := Entries(rr);
      var n := |entries| - 1;
      assert entries[n..] == [entries[n]] && entries[n..][1..] == [] && entries[n..n] == [];
      assert Trail(entries[n..]) == "" + entries[n] + ",";
    }
  }

  lemma NextTurn(entries: seq<string>, contact: string, m: nat)
    requires 2 <= m < |entries|
    ensures var s := Held(entries, contact, false, m);
      Held(entries, contact, false, m - 1) == s.(actual := s.actual + entries[m - 1] + ",")
  {
  }

  lemma LastTurn(rr: string, contact: string, fromRequest: bool)
    requires |Entries(rr)| >= 2
    ensures var s := Held(Entries(rr), contact, fromRequest, 1);
      Finished(s.(actual := s.actual + Entries(rr)[0]), contact) == Computed(rr, contact, fromRequest)
  {
    hide Contains, Entries, Join, Trail, Reverse;
    var entries := Entries(rr);
    var n := |entries| - 1;
    if !fromRequest {
      if Contains(entries[n], LR) {
        TrailJoins(entries);
      } else {
        TrailJoins(entries[..n]);
        assert entries[..n][1..] == entries[1..n] && entries[..n][0] == entries[0];
      }
    }
  }

  lemma OnlyTurn(rr: string, contact: string, fromRequest: bool)
    requires Comma(rr, fromRequest) < 0
    ensures Finished(First(rr, rr, contact, false), contact) == Computed(rr, contact, fromRequest)
  {
  }

  /** The loop over the list: from its last comma to its first in a response; a request's first comma
      ends what the next turn looks at. */
  method ScanEntries(rr0: string, contact: string, bRequestIncoming: bool) returns (actualRr: string, targetUri: string)
    ensures Result(actualRr, targetUri) == Computed(rr0, contact, bRequestIncoming)
  {
    hide *;
    var rr := rr0;
    var isFirst := true;
    var s := Scan("", "", false);
    ghost var entries := Entries(rr0);
    ghost var m := |entries|;
    while true
      invariant if isFirst then rr == rr0 else 1 <= m < |entries| && Entries(rr) == entries[..m]
      invariant !isFirst ==> s == Held(entries, contact, bRequestIncoming, m)
      invariant !isFirst && bRequestIncoming ==> m == 1
      decreases |rr|
    {
      var pointer := Comma(rr, bRequestIncoming);
      if pointer >= 0 {
        if !isFirst {
          Cut(rr, bRequestIncoming, entries, m);
          NextTurn(entries, contact, m);
          s := s.(actual := s.actual + rr[pointer + 1..] + ",");
          m := m - 1;
        } else {
          FirstTurn(rr, contact, bRequestIncoming);
          isFirst := false;
          s := First(rr[pointer + 1..], rr[pointer..], contact, true);
          m := |Entries(rr[..pointer])|;
        }
        rr := rr[..pointer];
      } else {
        if !isFirst {
          NoComma(rr, bRequestIncoming);
          LastTurn(rr0, contact, bRequestIncoming);
          s := s.(actual := s.actual + rr);
        } else {
          OnlyTurn(rr, contact, bRequestIncoming);
          s := First(rr, rr, contact, false);
        }
        break;
      }
    }
    var result := Finished(s, contact);
    return result.route, result.target;
  }

  /** A turn after the first finds a comma in a response only. */
  lemma Cut(rr: string, fromRequest: bool, entries: seq<string>, m: nat)
    requires 1 <= m < |entries| && Entries(rr) == entries[..m] && Comma(rr, fromRequest) >= 0
    requires fromRequest ==> m == 1
    ensures var p := Comma(rr, fromRequest);
      !fromRequest && m >= 2 && Entries(rr[..p]) == entries[..m - 1] && rr[p + 1..] == entries[m - 1]
  {
    if fromRequest {
      SplitAtFirst(rr);
    } else {
      CutLast(rr);
      assert entries[..m][..m - 1] == entries[..m - 1];
    }
  }

  // ---------- Against the standard ----------

  lemma {:induction false} ReverseAt(parts: seq<string>, k: nat)
    requires k < |parts|
    ensures Reverse(parts)[k] == parts[|parts| - 1 - k]
  {
    if k < |parts| - 1 {
      ReverseAt(parts[1..], k);
    }
  }

  /** On a response the code does what the standard says, unless the last of two entries is a strict
      router and the other entry is empty: then the empty entry is lost. */
  lemma ResponseMeetsStandardIff(entries: seq<string>, contact: string)
    requires entries != []
    ensures var code, standard := FromResponse(entries, contact), Standard(entries, contact);
      code == Result(Join(standard.route, ','), standard.target)
      <==> Contains(entries[|entries| - 1], LR) || |entries| != 2 || entries[0] != ""
  {
    hide Contains;
    var n := |entries| - 1;
    if !Contains(entries[n], LR) && n > 0 {
      var back := Reverse(entries[..n]);
      JoinSnoc(back, contact, ',');
      if n == 1 {
        ReverseAt(entries[..n], 0);
        assert back == [entries[0]];
      } else {
        assert Join(back, ',') == back[0] + "," + Join(back[1..], ',');
      }
    }
  }

  /** An empty entry and a strict router: the route set is the contact alone, one entry short. */
  lemma ResponseCanLoseAnEntry()
    ensures FromResponse(["", "b"], "c") == Result("c", "b")
    ensures Standard(["", "b"], "c") == Routes(["", "c"], "b")
  {
    NoMark("b");
    assert ["", "b"][..1] == [""];
    assert Reverse([""]) == [""] && [""] + ["c"] == ["", "c"];
  }

  lemma NoMark(text: string)
    requires ';' !in text
    ensures !Contains(text, LR)
  {
    forall i | 0 <= i <= |text| - |LR| ensures text[i..][..|LR|] != LR {
      assert text[i..][..|LR|][0] == text[i];
    }
  }

  lemma EntriesAreClean(rr: string)
    ensures forall k :: 0 <= k < |Entries(rr)| ==> ',' !in Entries(rr)[k]
  {
    forall k | 0 <= k < |Entries(rr)| ensures ',' !in Entries(rr)[k] {
      PiecesAreClean(rr, ',', 0, k);
    }
  }

  /** Section 12.1.2 of RFC 3261: behind a loose router, the route set read back entry by entry is the
      Record-Route list in reverse order, and the target is the contact. */
  lemma LooseRouteSetIsReversed(rr: string, contact: string)
    requires Contains(Entries(rr)[|Entries(rr)| - 1], LR)
    ensures var r := Computed(rr, contact, false); Entries(r.route) == Reverse(Entries(rr)) && r.target == contact
  {
    hide Contains;
    var entries := Entries(rr);
    EntriesAreClean(rr);
    forall k | 0 <= k < |entries| ensures ',' !in Reverse(entries)[k] {
      ReverseAt(entries, k);
    }
    SplitOfJoin(Reverse(entries), ',');
  }

  /** Section 12.2.1.1 of RFC 3261: behind a strict router, which becomes the target, the route set is
      the rest of the list in reverse order, with the contact at the end. */
  lemma StrictRouteSetEndsWithContact(rr: string, contact: string)
    requires !Contains(Entries(rr)[|Entries(rr)| - 1], LR) && ',' !in contact
    requires |Entries(rr)| != 2 || Entries(rr)[0] != ""
    ensures var r := Computed(rr, contact, false);
      var n := |Entries(rr)| - 1;
      Entries(r.route) == Reverse(Entries(rr)[..n]) + [contact] && r.target == Entries(rr)[n]
  {
    hide Contains, FromResponse;
    var entries := Entries(rr);
    var n := |entries| - 1;
    var route := Reverse(entries[..n]) + [contact];
    ResponseMeetsStandardIff(entries, contact);
    EntriesAreClean(rr);
    forall k | 0 <= k <= n ensures ',' !in route[k] {
      if k < n {
        ReverseAt(entries[..n], k);
      }
    }
    SplitOfJoin(route, ',');
  }

  /** When the code treats a request's list as the standard does. It takes everything behind the first
      comma for the first hop, looks for the mark there, and moves the first entry to the end; so it is
      right about a single entry, and about more only when entries and contact happen to coincide. */
  predicate RequestIsStandard(entries: seq<string>, contact: string)
    requires entries != []
  {
    var rest := Join(entries[1..], ',');
    |entries| == 1 ||
    if Contains(rest, LR) then
      if Contains(entries[0], LR) then forall k :: 0 <= k < |entries| ==> entries[k] == entries[0]
      else contact == entries[0]
    else
      if Contains(entries[0], LR) then contact == rest
      else entries[1..] == [entries[0]] && entries[0] != ""
  }

  /** Sections 12.1.1 and 12.2.1.1 of RFC 3261, for every Record-Route header of a request. */
  lemma RequestMeetsStandardIff(rr: string, contact: string)
    ensures var code, standard := Computed(rr, contact, true), StandardRequest(Entries(rr), contact);
      code == Result(Join(standard.route, ','), standard.target) <==> RequestIsStandard(Entries(rr), contact)
  {
    hide Contains, Entries, Join;
    var entries := Entries(rr);
    EntriesAreClean(rr);
    if |entries| == 1 {
      JoinOne(entries[0]);
      JoinOne(contact);
      assert entries == [entries[0]] && entries[1..] + [contact] == [contact];
    } else {
      var rest := Join(entries[1..], ',');
      JoinCons(entries[0], entries[1..], ',');
      assert entries == [entries[0]] + entries[1..];
      JoinSnoc(entries[1..], contact, ',');
      if Contains(rest, LR) {
        if Contains(entries[0], LR) {
          TurnedTextIff(entries);
        } else {
          SameTail(rest, entries[0], contact);
        }
      } else if Contains(entries[0], LR) {
        MarkedIsNotEmpty(entries[0]);
        SameTail(entries[0], contact, rest);
      } else {
        OnlyItself(entries);
      }
    }
  }

  lemma JoinOne(entry: string)
    ensures Join([entry], ',') == entry
  {
  }

  lemma SameTail(a: string, b: string, c: string)
    ensures a + "," + b == a + "," + c <==> b == c
  {
    var n := |a| + 1;
    assert (a + "," + b)[n..] == b && (a + "," + c)[n..] == c;
  }

  lemma MarkedIsNotEmpty(text: string)
    requires Contains(text, LR)
    ensures text != ""
  {
  }

  /** The entries behind the first one, as one text, are the first one itself. */
  lemma OnlyItself(entries: seq<string>)
    requires |entries| >= 2 && forall k :: 0 <= k < |entries| ==> ',' !in entries[k]
    ensures Join(entries[1..], ',') == entries[0] <==> entries[1..] == [entries[0]]
  {
    SplitOfJoin(entries[1..], ',');
    OnePiece(entries[0], ',');
  }

  /** Moving the first entry to the end gives the same text only when all entries are equal. */
  lemma TurnedTextIff(entries: seq<string>)
    requires |entries| >= 2 && forall k :: 0 <= k < |entries| ==> ',' !in entries[k]
    ensures Join(entries[1..], ',') + "," + entries[0] == Join(entries, ',')
            <==> forall k :: 0 <= k < |entries| ==> entries[k] == entries[0]
  {
    hide Join;
    var turned := entries[1..] + [entries[0]];
    JoinSnoc(entries[1..], entries[0], ',');
    SplitOfJoin(turned, ',');
    SplitOfJoin(entries, ',');
    if forall k :: 0 <= k < |entries| ==> entries[k] == entries[0] {
      assert turned == entries;
    }
    if turned == entries {
      AllEqual(entries, |entries| - 1);
    }
  }

  lemma {:induction false} AllEqual(entries: seq<string>, k: nat)
    requires k < |entries| && entries[1..] + [entries[0]] == entries
    ensures forall j :: 0 <= j <= k ==> entries[j] == entries[0]
  {
    if k > 0 {
      AllEqual(entries, k - 1);
      assert (entries[1..] + [entries[0]])[k - 1] == entries[k];
    }
  }

  /** Two different entries in front, and a contact that is neither the first entry nor all the others
      together, are enough for the code to miss the standard. */
  lemma RequestMissesStandard(rr: string, contact: string)
    requires |Entries(rr)| >= 2 && Entries(rr)[0] != Entries(rr)[1]
    requires contact != Entries(rr)[0] && contact != Join(Entries(rr)[1..], ',')
    ensures !RequestIsStandard(Entries(rr), contact)
  {
    hide Contains, Join;
  }

  lemma ThreeEntries()
    ensures Entries("a,b,c") == ["a", "b", "c"] && Join(["b", "c"], ',') == "b,c"
  {
    var entries := ["a", "b", "c"];
    hide Split;
    SplitOfJoin(entries, ',');
    JoinCons("b", ["c"], ',');
    JoinCons("a", ["b", "c"], ',');
    assert entries == ["a"] + ["b", "c"] && ["b", "c"] == ["b"] + ["c"];
    assert Join(["c"], ',') == "c";
    assert Join(["b", "c"], ',') == "b" + [','] + "c" == "b,c";
    assert Join(entries, ',') == "a" + [','] + "b,c" == "a,b,c";
  }

  /** Three strict routers: the target is two addresses in one text, and not the first router. */
  lemma RequestTargetCanBeTwo()
    ensures var r := Computed("a,b,c", "d", true);
      r == Result("a,d", "b,c") && StandardRequest(Entries("a,b,c"), "d") == Routes(["b", "c", "d"], "a")
  {
    hide Contains, Entries, Join;
    ThreeEntries();
    NoMark("a");
    NoMark("b,c");
    assert ["a", "b", "c"][1..] == ["b", "c"];
  }
}
