/** An injection file: lines of `;`-separated fields, with an index from the content of one field to a
    line number. Files in printf mode, whose lines are generated, are refused by insert and replace and
    are not modelled. */
module CsvIndex {
  import opened Delimited

  datatype Result<T> = Ok(value: T) | Err(message: string)

  // ---------- Fields ----------

  /** A line is cut at its semicolons; a field that the line does not have is empty. */
  function Field(line: string, f: int): string {
    var parts := Split(line, ';', 0);
    if 0 <= f < |parts| then parts[f] else ""
  }

  /** Fields put together with semicolons, none having one inside, are found again, each under its number,
      counted from 0; under any other number there is nothing. */
  lemma FieldsBetweenSemicolons(fields: seq<string>, f: int)
    requires fields != [] && forall i :: 0 <= i < |fields| ==> ';' !in fields[i]
    ensures Field(Join(fields, ';'), f) == if 0 <= f < |fields| then fields[f] else ""
  {
    SplitOfJoin(fields, ';');
  }

  /** The scan for one field. */
  method GetField(line: string, field: int) returns (dest: string)
    ensures dest == Field(line, field)
  {
    var curfield := field;
    var pos, oldpos := 0, 0;
    var found := true;
    ghost var done := 0;
    while true
      invariant 0 <= pos <= |line|
      invariant done + |Split(line, ';', pos)| == |Split(line, ';', 0)|
      invariant Split(line, ';', 0)[done..] == Split(line, ';', pos)
      invariant curfield == field - done && (field >= 0 ==> curfield >= 0)
      decreases |line| - pos
    {
      oldpos := pos;
      var localpos := Next(line, ';', oldpos);
      if localpos == |line| {
        found := false;
        break;
      }
      pos := localpos + 1;
      if curfield == 0 {
        break;
      }
      curfield := curfield - 1;
      done := done + 1;
      assert Split(line, ';', oldpos)[1..] == Split(line, ';', pos);
    }
    if curfield != 0 {
      return "";
    }
    assert Split(line, ';', 0)[done] == Split(line, ';', oldpos)[0];
    return if found then line[oldpos..pos - 1] else line[oldpos..];
  }

  // ---------- The index, as a function of what is done to the file ----------

  function Key(lines: seq<string>, f: int, line: nat): string
    requires line < |lines|
  {
    Field(lines[line], f)
  }

  function ReIndexed(lines: seq<string>, f: int, ix: map<string, nat>, line: nat): map<string, nat>
    requires line < |lines|
  {
    ix[Key(lines, f, line) := line]
  }

  function DeIndexed(lines: seq<string>, f: int, ix: map<string, nat>, line: nat): map<string, nat>
    requires line < |lines|
  {
    var key := Key(lines, f, line);
    if key in ix && ix[key] == line then ix - {key} else ix
  }

  function Built(lines: seq<string>, f: int, n: nat): map<string, nat>
    requires n <= |lines|
  {
    if n == 0 then map[] else ReIndexed(lines, f, Built(lines, f, n - 1), n - 1)
  }

  datatype File = File(lines: seq<string>, field: int, ix: map<string, nat>)

  function Inserted(file: File, value: string): File {
    var lines := file.lines + [value];
    file.(lines := lines, ix := ReIndexed(lines, file.field, file.ix, |lines| - 1))
  }

  function Replaced(file: File, line: nat, value: string): File
    requires line < |file.lines|
  {
    var ix := DeIndexed(file.lines, file.field, file.ix, line);
    var lines := file.lines[line := value];
    file.(lines := lines, ix := ReIndexed(lines, file.field, ix, line))
  }

  datatype Op = Insert(value: string) | Replace(line: nat, value: string)

  /** A replace of a line that does not exist ends the program; the file stays as it was. */
  function Done(file: File, op: Op): File {
    match op
    case Insert(value) => Inserted(file, value)
    case Replace(line, value) => if line < |file.lines| then Replaced(file, line, value) else file
  }

  function All(file: File, ops: seq<Op>): File
    decreases |ops|
  {
    if ops == [] then file else Done(All(file, ops[..|ops| - 1]), ops[|ops| - 1])
  }

  function Indexed(lines: seq<string>, f: int): File {
    File(lines, f, Built(lines, f, |lines|))
  }

  // ---------- The object ----------

  /** `indexField` is -1 and `indexMap` empty until an index is asked for. */
  class FileContents {
    var fileLines: seq<string>
    var indexField: int
    var indexMap: map<string, nat>
    var hasMap: bool

    ghost function View(): File
      reads this
    {
      File(fileLines, indexField, indexMap)
    }

    constructor (lines: seq<string>)
      requires lines != []
      ensures View() == File(lines, -1, map[]) && !hasMap
    {
      fileLines, indexField, indexMap, hasMap := lines, -1, map[], false;
    }

    method Index(field: int)
      modifies this
      ensures field != -1 ==> View() == Indexed(old(fileLines), field)
      ensures View() == File(old(fileLines), field, if field == -1 then map[] else indexMap) && hasMap
    {
      indexField, indexMap, hasMap := field, map[], true;
      var line := 0;
      while line < |fileLines|
        invariant 0 <= line <= |fileLines| && fileLines == old(fileLines) && indexField == field && hasMap
        invariant indexMap == if field == -1 then map[] else Built(fileLines, field, line)
      {
        ReIndex(line);
        line := line + 1;
      }
    }

    /** -1 when no line is indexed under the key. */
    method Lookup(key: string) returns (line: Result<int>)
      ensures line.Err? <==> indexField == -1 || !hasMap
      ensures line.Ok? ==> line.value == if key in indexMap then indexMap[key] else -1
    {
      if indexField == -1 || !hasMap {
        return Err("Invalid Index File");
      }
      return Ok(if key in indexMap then indexMap[key] else -1);
    }

    method Insert(value: string)
      modifies this`fileLines, this`indexMap
      ensures indexField != -1 ==> View() == Inserted(old(View()), value)
      ensures indexField == -1 ==> View() == old(View()).(lines := old(fileLines) + [value])
    {
      fileLines := fileLines + [value];
      if indexField != -1 {
        ReIndex(|fileLines| - 1);
      }
    }

    method Replace(line: int, value: string) returns (done: Result<()>)
      modifies this`fileLines, this`indexMap
      ensures done.Ok? <==> 0 <= line < |old(fileLines)|
      ensures done.Err? ==> View() == old(View())
      ensures done.Ok? && indexField != -1 ==> View() == Replaced(old(View()), line, value)
      ensures done.Ok? && indexField == -1 ==> View() == old(View()).(lines := old(fileLines)[line := value])
    {
      if line >= |fileLines| || line < 0 {
        return Err("Invalid line number");
      }
      DeIndex(line);
      fileLines := fileLines[line := value];
      ReIndex(line);
      return Ok(());
    }

    method ReIndex(line: nat)
      requires line < |fileLines|
      modifies this`indexMap
      ensures indexMap ==
        if indexField == -1 then old(indexMap) else ReIndexed(fileLines, indexField, old(indexMap), line)
    {
      if indexField == -1 {
        return;
      }
      var key := GetField(fileLines[line], indexField);
      if key in indexMap {
        indexMap := indexMap - {key};
      }
      indexMap := indexMap[key := line];
    }

    method DeIndex(line: nat)
      requires line < |fileLines|
      modifies this`indexMap
      ensures indexMap ==
        if indexField == -1 then old(indexMap) else DeIndexed(fileLines, indexField, old(indexMap), line)
    {
      if indexField == -1 {
        return;
      }
      var key := GetField(fileLines[line], indexField);
      if key in indexMap {
        if indexMap[key] == line {
          indexMap := indexMap - {key};
        }
      }
    }
  }

  // ---------- What the index promises ----------

  /** Every entry leads to a line that has that key. */
  ghost predicate Sound(file: File) {
    forall key :: key in file.ix ==> file.ix[key] < |file.lines| && Key(file.lines, file.field, file.ix[key]) == key
  }

  predicate IsLast(file: File, key: string, line: nat) {
    && line < |file.lines| && Key(file.lines, file.field, line) == key
    && forall j :: line < j < |file.lines| ==> Key(file.lines, file.field, j) != key
  }

  /** Every key of the file leads to the last line that has it. */
  ghost predicate Latest(file: File) {
    && Sound(file)
    && (forall j :: 0 <= j < |file.lines| ==>
          var key := Key(file.lines, file.field, j);
          key in file.ix && j <= file.ix[key])
  }

  ghost predicate Distinct(file: File) {
    forall i, j :: 0 <= i < j < |file.lines| ==> Key(file.lines, file.field, i) != Key(file.lines, file.field, j)
  }

  function Found(file: File, key: string): int {
    if key in file.ix then file.ix[key] else -1
  }

  /** What a lookup in such an index tells: the last line with the key, or that there is none. */
  lemma LatestLookup(file: File, key: string)
    requires Latest(file)
    ensures Found(file, key) >= 0 ==> IsLast(file, key, Found(file, key))
    ensures Found(file, key) == -1 <==> forall j :: 0 <= j < |file.lines| ==> Key(file.lines, file.field, j) != key
  {
  }

  /** Indexing one more line of a file whose first n lines are indexed. */
  lemma BuildStep(lines: seq<string>, f: int, ix: map<string, nat>, n: nat)
    requires n < |lines|
    requires forall key :: key in ix ==> ix[key] < n && Key(lines, f, ix[key]) == key
    requires forall j :: 0 <= j < n ==> Key(lines, f, j) in ix && j <= ix[Key(lines, f, j)]
    ensures var ix' := ReIndexed(lines, f, ix, n);
      && (forall key :: key in ix' ==> ix'[key] < n + 1 && Key(lines, f, ix'[key]) == key)
      && (forall j :: 0 <= j < n + 1 ==> Key(lines, f, j) in ix' && j <= ix'[Key(lines, f, j)])
  {
  }

  lemma {:induction false} BuiltIsLatest(lines: seq<string>, f: int, n: nat)
    requires n <= |lines|
    ensures var ix := Built(lines, f, n);
      && (forall key :: key in ix ==> ix[key] < n && Key(lines, f, ix[key]) == key)
      && (forall j :: 0 <= j < n ==> Key(lines, f, j) in ix && j <= ix[Key(lines, f, j)])
  {
    if n > 0 {
      BuiltIsLatest(lines, f, n - 1);
      hide Key, ReIndexed;
      BuildStep(lines, f, Built(lines, f, n - 1), n - 1);
    }
  }

  lemma SoundStep(file: File, op: Op)
    requires Sound(file)
    ensures Sound(Done(file, op))
  {
  }

  /** Whatever is inserted and replaced, no entry is ever stale. */
  lemma {:induction false} AlwaysSound(lines: seq<string>, f: int, ops: seq<Op>)
    ensures Sound(All(Indexed(lines, f), ops))
    decreases |ops|
  {
    hide Done, Key;
    if ops == [] {
      BuiltIsLatest(lines, f, |lines|);
    } else {
      AlwaysSound(lines, f, ops[..|ops| - 1]);
      SoundStep(All(Indexed(lines, f), ops[..|ops| - 1]), ops[|ops| - 1]);
    }
  }

  lemma InsertStep(file: File, value: string)
    requires Latest(file)
    ensures Latest(Inserted(file, value))
  {
    hide Field;
    var after := Inserted(file, value);
    var n := |file.lines|;
    SoundStep(file, Insert(value));
    forall j | 0 <= j < n + 1
      ensures var key := Key(after.lines, after.field, j); key in after.ix && j <= after.ix[key]
    {
      if j < n {
        assert Key(after.lines, after.field, j) == Key(file.lines, file.field, j);
      }
    }
  }

  /** With inserts only, a lookup gives the last line with the key. */
  lemma {:induction false} InsertsKeepLatest(lines: seq<string>, f: int, ops: seq<Op>)
    requires forall op :: op in ops ==> op.Insert?
    ensures Latest(All(Indexed(lines, f), ops))
    decreases |ops|
  {
    if ops == [] {
      BuiltIsLatest(lines, f, |lines|);
    } else {
      hide Inserted, Latest, Indexed;
      var op := ops[|ops| - 1];
      assert op in ops;
      InsertsKeepLatest(lines, f, ops[..|ops| - 1]);
      InsertStep(All(Indexed(lines, f), ops[..|ops| - 1]), op.value);
    }
  }

  /** The replaced line does not give way to one indexed earlier: no later line has the new key, and if
      the replaced line was the last with its old key and loses it, no earlier line has that key. */
  predicate ReplaceIsSafe(file: File, line: nat, value: string)
    requires line < |file.lines|
  {
    var was, now := Key(file.lines, file.field, line), Field(value, file.field);
    && (forall j :: line < j < |file.lines| ==> Key(file.lines, file.field, j) != now)
    && (was != now && IsLast(file, was, line) ==> forall j :: 0 <= j < line ==> Key(file.lines, file.field, j) != was)
  }

  lemma SafeReplaceKeepsLatest(file: File, line: nat, value: string)
    requires Latest(file) && line < |file.lines| && ReplaceIsSafe(file, line, value)
    ensures Latest(Replaced(file, line, value))
  {
    hide Field;
    var after := Replaced(file, line, value);
    var was, now := Key(file.lines, file.field, line), Field(value, file.field);
    SoundStep(file, Replace(line, value));
    forall j | 0 <= j < |file.lines|
      ensures var key := Key(after.lines, after.field, j); key in after.ix && j <= after.ix[key]
    {
      if j != line {
        assert Key(after.lines, after.field, j) == Key(file.lines, file.field, j);
      }
    }
  }

  lemma UnsafeReplaceLosesLatest(file: File, line: nat, value: string)
    requires Latest(file) && line < |file.lines| && Latest(Replaced(file, line, value))
    ensures ReplaceIsSafe(file, line, value)
  {
    hide Field;
    var after := Replaced(file, line, value);
    var was, now := Key(file.lines, file.field, line), Field(value, file.field);
    assert after.ix[now] == line;
    forall j | 0 <= j < |file.lines| && j != line
      ensures j > line ==> Key(file.lines, file.field, j) != now
      ensures was != now && IsLast(file, was, line) ==> Key(file.lines, file.field, j) != was
    {
      assert Key(after.lines, after.field, j) == Key(file.lines, file.field, j);
    }
  }

  /** A replace keeps the index on the last lines exactly when it is safe. */
  lemma ReplaceKeepsLatestIff(file: File, line: nat, value: string)
    requires Latest(file) && line < |file.lines|
    ensures Latest(Replaced(file, line, value)) <==> ReplaceIsSafe(file, line, value)
  {
    hide Latest, Replaced, ReplaceIsSafe;
    if ReplaceIsSafe(file, line, value) {
      SafeReplaceKeepsLatest(file, line, value);
    } else if Latest(Replaced(file, line, value)) {
      UnsafeReplaceLosesLatest(file, line, value);
    }
  }

  /** Two lines share a key; the second is given another one; the key is lost although the first line
      still has it. */
  lemma ReplaceCanLoseAKey()
    ensures var file := Replaced(Indexed(["a", "a"], 0), 1, "b");
      Key(file.lines, 0, 0) == "a" && Found(file, "a") == -1
  {
  }

  /** No two lines share a key, before and after every step. */
  ghost predicate DistinctThroughout(file: File, ops: seq<Op>) {
    forall i {:trigger ops[..i]} :: 0 <= i <= |ops| ==> Distinct(All(file, ops[..i]))
  }

  lemma ThroughoutFront(file: File, ops: seq<Op>)
    requires ops != [] && DistinctThroughout(file, ops)
    ensures DistinctThroughout(file, ops[..|ops| - 1])
    ensures Distinct(All(file, ops[..|ops| - 1])) && Distinct(All(file, ops))
  {
    hide Distinct, All;
    var n := |ops| - 1;
    var early := ops[..n];
    forall i | 0 <= i <= n ensures Distinct(All(file, early[..i])) {
      assert early[..i] == ops[..i];
    }
    assert ops[..n + 1] == ops;
  }

  lemma DistinctStep(file: File, op: Op)
    requires Latest(file) && Distinct(file) && Distinct(Done(file, op))
    ensures Latest(Done(file, op))
  {
    hide Inserted, Replaced, Latest, Distinct, ReplaceIsSafe;
    match op
    case Insert(value) => InsertStep(file, value);
    case Replace(line, value) =>
      if line < |file.lines| {
        DistinctIsSafe(file, line, value);
        ReplaceKeepsLatestIff(file, line, value);
      }
  }

  lemma {:induction false} DistinctKeepsLatest(lines: seq<string>, f: int, ops: seq<Op>)
    requires DistinctThroughout(Indexed(lines, f), ops)
    ensures Latest(All(Indexed(lines, f), ops))
    decreases |ops|
  {
    if ops == [] {
      BuiltIsLatest(lines, f, |lines|);
    } else {
      hide Done, Latest, Indexed, Distinct, DistinctThroughout;
      ThroughoutFront(Indexed(lines, f), ops);
      DistinctKeepsLatest(lines, f, ops[..|ops| - 1]);
      DistinctStep(All(Indexed(lines, f), ops[..|ops| - 1]), ops[|ops| - 1]);
    }
  }

  lemma DistinctIsSafe(file: File, line: nat, value: string)
    requires line < |file.lines| && Distinct(file) && Distinct(Replaced(file, line, value))
    ensures ReplaceIsSafe(file, line, value)
  {
    hide Field, DeIndexed, ReIndexed;
    var after := Replaced(file, line, value);
    assert Key(after.lines, after.field, line) == Field(value, file.field);
    forall j | line < j < |file.lines| ensures Key(file.lines, file.field, j) != Field(value, file.field) {
      assert Key(after.lines, after.field, j) == Key(file.lines, file.field, j);
    }
  }

  lemma LookupIsExact(file: File, key: string)
    requires Latest(file) && Distinct(file)
    ensures forall line :: Found(file, key) == line && line >= 0 <==>
      0 <= line < |file.lines| && Key(file.lines, file.field, line) == key
  {
  }

  /** Where no two lines share a key, before and after every step, a lookup is exact both ways. */
  lemma DistinctIsExact(lines: seq<string>, f: int, ops: seq<Op>, key: string)
    requires DistinctThroughout(Indexed(lines, f), ops)
    ensures var file := All(Indexed(lines, f), ops);
      forall line :: Found(file, key) == line && line >= 0 <==>
        0 <= line < |file.lines| && Key(file.lines, file.field, line) == key
  {
    hide Latest, Distinct, Indexed;
    DistinctKeepsLatest(lines, f, ops);
    assert ops[..|ops|] == ops;
    LookupIsExact(All(Indexed(lines, f), ops), key);
  }
}
