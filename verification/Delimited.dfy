/** Text cut at a delimiter character, and put together again. */
module Delimited {

  /** Where the first delimiter at or after position i is, or the length of the text. */
  function Next(text: string, c: char, i: nat): (p: nat)
    requires i <= |text|
    ensures i <= p <= |text| && (forall j :: i <= j < p ==> text[j] != c) && (p < |text| ==> text[p] == c)
    decreases |text| - i
  {
    if i == |text| || text[i] == c then i else Next(text, c, i + 1)
  }

  /** The pieces from position i on; n delimiters make n + 1 pieces. */
  function Split(text: string, c: char, i: nat): (parts: seq<string>)
    requires i <= |text|
    ensures |parts| >= 1
    decreases |text| - i
  {
    var p := Next(text, c, i);
    if p == |text| then [text[i..]] else [text[i..p]] + Split(text, c, p + 1)
  }

  function Join(parts: seq<string>, c: char): string {
    if parts == [] then "" else if |parts| == 1 then parts[0] else parts[0] + [c] + Join(parts[1..], c)
  }

  lemma JoinCons(part: string, parts: seq<string>, c: char)
    requires parts != []
    ensures Join([part] + parts, c) == part + [c] + Join(parts, c)
  {
  }

  lemma {:induction false} JoinSnoc(parts: seq<string>, part: string, c: char)
    requires parts != []
    ensures Join(parts + [part], c) == Join(parts, c) + [c] + part
  {
    if |parts| == 1 {
      JoinCons(parts[0], [part], c);
      assert parts + [part] == [parts[0]] + [part];
    } else {
      JoinSnoc(parts[1..], part, c);
      JoinCons(parts[0], parts[1..] + [part], c);
      assert parts + [part] == [parts[0]] + (parts[1..] + [part]);
      assert parts == [parts[0]] + parts[1..];
    }
  }

  lemma CutAt(text: string, i: nat, p: nat)
    requires i <= p < |text|
    ensures text[i..] == text[i..p] + [text[p]] + text[p + 1..]
  {
  }

  /** The pieces of a text make up the text. */
  lemma {:induction false} JoinOfSplit(text: string, c: char, i: nat)
    requires i <= |text|
    ensures Join(Split(text, c, i), c) == text[i..]
    decreases |text| - i
  {
    var p := Next(text, c, i);
    if p < |text| {
      JoinOfSplit(text, c, p + 1);
      var rest := Split(text, c, p + 1);
      assert Split(text, c, i) == [text[i..p]] + rest;
      hide Split, Next, Join;
      JoinCons(text[i..p], rest, c);
      CutAt(text, i, p);
    }
  }

  /** No piece has the delimiter in it. */
  lemma {:induction false} PiecesAreClean(text: string, c: char, i: nat, k: nat)
    requires i <= |text| && k < |Split(text, c, i)|
    ensures c !in Split(text, c, i)[k]
    decreases |text| - i
  {
    var p := Next(text, c, i);
    if p < |text| && k > 0 {
      PiecesAreClean(text, c, p + 1, k - 1);
    }
  }

  lemma {:induction false} SplitShift(text: string, c: char, k: nat, i: nat)
    requires k + i <= |text|
    ensures Split(text[k..], c, i) == Split(text, c, k + i)
    decreases |text| - i
  {
    hide Next, Split;
    NextShift(text, c, k, i);
    var tail := text[k..];
    var p := Next(tail, c, i);
    SplitUnfolds(tail, c, i);
    SplitUnfolds(text, c, k + i);
    Slices(text, k, i, p);
    if p < |tail| {
      SplitShift(text, c, k, p + 1);
    }
  }

  lemma Slices(text: string, k: nat, i: nat, p: nat)
    requires i <= p && k + p <= |text|
    ensures text[k..][i..p] == text[k + i..k + p] && text[k..][i..] == text[k + i..]
  {
  }

  lemma SplitUnfolds(text: string, c: char, i: nat)
    requires i <= |text|
    ensures var p := Next(text, c, i);
      Split(text, c, i) == if p == |text| then [text[i..]] else [text[i..p]] + Split(text, c, p + 1)
  {
  }

  lemma NextShift(text: string, c: char, k: nat, i: nat)
    requires k + i <= |text|
    ensures Next(text[k..], c, i) + k == Next(text, c, k + i)
  {
  }

  /** A clean piece followed by a delimiter is the first one found. */
  lemma PieceInFront(part: string, c: char, tail: string)
    requires c !in part
    ensures Split(part + [c] + tail, c, 0) == [part] + Split(tail, c, 0)
  {
    var text := part + [c] + tail;
    var n := |part|;
    assert forall j :: 0 <= j < n ==> text[j] == part[j];
    assert text[n] == c;
    assert Next(text, c, 0) == n by {
      hide Next;
    }
    SplitShift(text, c, n + 1, 0);
    assert text[0..n] == part && text[n + 1..] == tail;
  }

  lemma OnePiece(part: string, c: char)
    requires c !in part
    ensures Split(part, c, 0) == [part]
  {
  }

  /** Clean pieces that are joined are found again. */
  lemma {:induction false} SplitOfJoin(parts: seq<string>, c: char)
    requires parts != [] && forall k :: 0 <= k < |parts| ==> c !in parts[k]
    ensures Split(Join(parts, c), c, 0) == parts
    decreases |parts|
  {
    hide Split, Next;
    var part, rest := parts[0], parts[1..];
    if rest == [] {
      OnePiece(part, c);
    } else {
      SplitOfJoin(rest, c);
      PieceInFront(part, c, Join(rest, c));
      assert parts == [part] + rest;
    }
  }
}
