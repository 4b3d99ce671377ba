/** Normalising the text of a CDATA section: blanks and newlines at either end go, an empty line is
    added when there is none, and blanks next to a newline are deleted, pair by pair, until none is
    left. */
module CleanCdata {

  datatype Result = Ok(text: string) | Err(message: string)

  predicate Blank(c: char) {
    c == ' ' || c == '\t'
  }

  predicate Space(c: char) {
    Blank(c) || c == '\n'
  }

  // ---------- What the clean-up means ----------

  /** The nearest character other than a blank, before or from position i on, is a newline. */
  ghost predicate NewlineBefore(s: string, i: nat)
    requires i <= |s|
  {
    exists k :: 0 <= k < i && s[k] == '\n' && forall m :: k < m < i ==> Blank(s[m])
  }

  ghost predicate NewlineAfter(s: string, i: nat)
    requires i <= |s|
  {
    exists k :: i <= k < |s| && s[k] == '\n' && forall m :: i <= m < k ==> Blank(s[m])
  }

  ghost predicate Kept(s: string, i: nat)
    requires i < |s|
  {
    !Blank(s[i]) || !(NewlineBefore(s, i) || NewlineAfter(s, i))
  }

  /** The text from position i on without the blanks whose run touches a newline. */
  ghost function Clean(s: string, i: nat): string
    requires i <= |s|
    decreases |s| - i
  {
    if i == |s| then "" else (if Kept(s, i) then [s[i]] else "") + Clean(s, i + 1)
  }

  /** No blank stands next to a newline. */
  predicate Tidy(s: string) {
    forall i :: 0 <= i < |s| - 1 ==> !(s[i] == '\n' && Blank(s[i + 1])) && !(Blank(s[i]) && s[i + 1] == '\n')
  }

  predicate EmptyLine(s: string) {
    exists i :: 0 <= i < |s| - 1 && s[i] == '\n' && s[i + 1] == '\n'
  }

  function NonBlanks(s: string): string {
    if s == "" then "" else (if Blank(s[0]) then "" else [s[0]]) + NonBlanks(s[1..])
  }

  // ---------- The same, in one pass ----------

  /** Reads s with blanks held back until it is known what follows them; `nl` says that the last
      character other than a blank was a newline. */
  function Pass(s: string, held: string, nl: bool): string {
    if s == "" then held
    else if Blank(s[0]) then Pass(s[1..], if nl then held else held + [s[0]], nl)
    else if s[0] == '\n' then "\n" + Pass(s[1..], "", true)
    else held + ([s[0]] + Pass(s[1..], "", false))
  }

  predicate AllBlank(s: string) {
    forall i :: 0 <= i < |s| ==> Blank(s[i])
  }

  lemma KeptInRun(s: string, j: nat, k: nat, i: nat, nl: bool)
    requires j <= k < i <= |s| && AllBlank(s[j..i]) && (i < |s| ==> !Blank(s[i]))
    requires nl == (j > 0 && s[j - 1] == '\n') && (j > 0 ==> !Blank(s[j - 1]))
    ensures Kept(s, k) <==> !(nl || (i < |s| && s[i] == '\n'))
  {
    assert forall m :: j <= m < i ==> Blank(s[m]) by {
      forall m | j <= m < i ensures Blank(s[m]) {
        assert s[j..i][m - j] == s[m];
      }
    }
    if NewlineBefore(s, k) {
      var b :| 0 <= b < k && s[b] == '\n' && forall m :: b < m < k ==> Blank(s[m]);
      assert b == j - 1;
    }
    if NewlineAfter(s, k) {
      var a :| k <= a < |s| && s[a] == '\n' && forall m :: k <= m < a ==> Blank(s[m]);
      assert a == i;
    }
  }

  lemma {:induction false} CleanDropped(s: string, k: nat, i: nat)
    requires k <= i <= |s| && forall m :: k <= m < i ==> !Kept(s, m)
    ensures Clean(s, k) == Clean(s, i)
    decreases i - k
  {
    hide Kept;
    if k < i {
      CleanDropped(s, k + 1, i);
    }
  }

  lemma Prepend(s: string, k: nat, i: nat, x: string)
    requires k < i <= |s|
    ensures s[k..i] + x == [s[k]] + (s[k + 1..i] + x)
  {
  }

  lemma {:induction false} CleanKept(s: string, k: nat, i: nat)
    requires k <= i <= |s| && forall m :: k <= m < i ==> Kept(s, m)
    ensures Clean(s, k) == s[k..i] + Clean(s, i)
    decreases i - k
  {
    hide Kept;
    if k < i {
      CleanKept(s, k + 1, i);
      Prepend(s, k, i, Clean(s, i));
    } else {
      assert s[k..i] == "";
    }
  }

  /** A whole run of blanks, from j to i, goes or stays together. */
  lemma CleanWholeRun(s: string, j: nat, i: nat, nl: bool)
    requires j <= i <= |s| && AllBlank(s[j..i]) && (i < |s| ==> !Blank(s[i]))
    requires nl == (j > 0 && s[j - 1] == '\n') && (j > 0 ==> !Blank(s[j - 1]))
    ensures Clean(s, j) == (if nl || (i < |s| && s[i] == '\n') then "" else s[j..i]) + Clean(s, i)
  {
    var keep := !(nl || (i < |s| && s[i] == '\n'));
    forall m | j <= m < i ensures Kept(s, m) == keep {
      KeptInRun(s, j, m, i, nl);
    }
    hide Kept, Clean;
    if keep {
      CleanKept(s, j, i);
    } else {
      CleanDropped(s, j, i);
    }
  }

  lemma StepNonBlank(s: string, i: nat, held: string, nl: bool)
    requires i < |s| && !Blank(s[i])
    ensures Clean(s, i) == [s[i]] + Clean(s, i + 1)
    ensures Pass(s[i..], held, nl)
            == (if s[i] == '\n' then "" else held) + ([s[i]] + Pass(s[i + 1..], "", s[i] == '\n'))
  {
  }

  lemma StepBlank(s: string, i: nat, held: string, nl: bool)
    requires i < |s| && Blank(s[i])
    ensures Pass(s[i..], held, nl) == Pass(s[i + 1..], if nl then held else held + [s[i]], nl)
  {
  }

  /** What the pass has in hand at position i when the run of blanks it is in began at j. */
  function Held(s: string, j: nat, i: nat, nl: bool): string
    requires j <= i <= |s|
  {
    if nl then "" else s[j..i]
  }

  /** The run of blanks at hand began at j, behind a newline or not. */
  predicate InRun(s: string, j: nat, i: nat, nl: bool) {
    j <= i <= |s| && AllBlank(s[j..i]) && nl == (j > 0 && s[j - 1] == '\n') && (j > 0 ==> !Blank(s[j - 1]))
  }

  lemma RunGrows(s: string, j: nat, i: nat, nl: bool)
    requires InRun(s, j, i, nl) && i < |s| && Blank(s[i])
    ensures InRun(s, j, i + 1, nl)
    ensures Held(s, j, i + 1, nl) == if nl then Held(s, j, i, nl) else Held(s, j, i, nl) + [s[i]]
  {
    assert s[j..i + 1] == s[j..i] + [s[i]];
  }

  lemma RunStarts(s: string, i: nat)
    requires i < |s| && !Blank(s[i])
    ensures InRun(s, i + 1, i + 1, s[i] == '\n') && Held(s, i + 1, i + 1, s[i] == '\n') == ""
  {
  }

  lemma RunEnds(s: string, j: nat, i: nat, nl: bool)
    requires InRun(s, j, i, nl) && (i < |s| ==> !Blank(s[i]))
    ensures Clean(s, j) == (if i < |s| && s[i] == '\n' then "" else Held(s, j, i, nl)) + Clean(s, i)
  {
    hide Clean;
    CleanWholeRun(s, j, i, nl);
  }

  lemma AtEnd(s: string, held: string, nl: bool)
    ensures Pass(s[|s|..], held, nl) == held && Clean(s, |s|) == ""
  {
  }

  /** The pass computes the clean text. */
  lemma {:induction false} PassCleans(s: string, j: nat, i: nat, nl: bool)
    requires j <= i <= |s| && InRun(s, j, i, nl)
    ensures Pass(s[i..], Held(s, j, i, nl), nl) == Clean(s, j)
    decreases |s| - i
  {
    hide Pass, Clean, InRun, Held, Blank;
    var held := Held(s, j, i, nl);
    if i == |s| {
      RunEnds(s, j, i, nl);
      AtEnd(s, held, nl);
    } else if Blank(s[i]) {
      RunGrows(s, j, i, nl);
      PassCleans(s, j, i + 1, nl);
      StepBlank(s, i, held, nl);
    } else {
      RunEnds(s, j, i, nl);
      RunStarts(s, i);
      PassCleans(s, i + 1, i + 1, s[i] == '\n');
      StepNonBlank(s, i, held, nl);
    }
  }

  lemma PassIsClean(s: string)
    ensures Pass(s, "", false) == Clean(s, 0)
  {
    assert s[0..] == s && s[0..0] == "";
    PassCleans(s, 0, 0, false);
  }

  // ---------- One deletion ----------

  /** Deleting a blank after a newline does not change what the text cleans to. */
  lemma {:induction false} DeleteAfter(s: string, i: nat, held: string, nl: bool)
    requires i + 1 < |s| && s[i] == '\n' && Blank(s[i + 1])
    ensures Pass(s[..i + 1] + s[i + 2..], held, nl) == Pass(s, held, nl)
    decreases i
  {
    var t := s[..i + 1] + s[i + 2..];
    if i == 0 {
      assert t[1..] == s[2..] == s[1..][1..];
    } else {
      assert t[1..] == s[1..][..i] + s[1..][i + 1..];
      DeleteAfter(s[1..], i - 1, if Blank(s[0]) then (if nl then held else held + [s[0]]) else "",
                  if Blank(s[0]) then nl else s[0] == '\n');
    }
  }

  /** Nor does deleting a blank before a newline. */
  lemma {:induction false} DeleteBefore(s: string, i: nat, held: string, nl: bool)
    requires i + 1 < |s| && Blank(s[i]) && s[i + 1] == '\n'
    ensures Pass(s[..i] + s[i + 1..], held, nl) == Pass(s, held, nl)
    decreases i
  {
    var t := s[..i] + s[i + 1..];
    if i == 0 {
      assert t == s[1..];
    } else {
      assert t[1..] == s[1..][..i - 1] + s[1..][i..];
      DeleteBefore(s[1..], i - 1, if Blank(s[0]) then (if nl then held else held + [s[0]]) else "",
                   if Blank(s[0]) then nl else s[0] == '\n');
    }
  }

  lemma PassUnfolds(s: string, held: string, nl: bool)
    requires s != ""
    ensures Pass(s, held, nl) ==
      if Blank(s[0]) then Pass(s[1..], if nl then held else held + [s[0]], nl)
      else (if s[0] == '\n' then "" else held) + ([s[0]] + Pass(s[1..], "", s[0] == '\n'))
  {
  }

  lemma TidyRest(s: string)
    requires Tidy(s) && s != ""
    ensures Tidy(s[1..])
    ensures s[1..] != "" ==> !(s[0] == '\n' && Blank(s[1..][0])) && !(Blank(s[0]) && s[1..][0] == '\n')
  {
  }

  /** A text with no such pair left is clean as it stands. */
  lemma {:induction false} TidyIsFixed(s: string, held: string, nl: bool)
    requires Tidy(s) && (nl ==> held == "" && (s == "" || !Blank(s[0])))
    requires held != "" ==> s == "" || s[0] != '\n'
    ensures Pass(s, held, nl) == held + s
    decreases |s|
  {
    if s == "" {
      assert held + s == held;
    } else {
      hide Pass, Tidy;
      TidyRest(s);
      PassUnfolds(s, held, nl);
      Regroup(held, s);
      if Blank(s[0]) {
        TidyIsFixed(s[1..], held + [s[0]], nl);
      } else {
        TidyIsFixed(s[1..], "", s[0] == '\n');
        assert "" + s[1..] == s[1..];
      }
    }
  }

  lemma Regroup(held: string, s: string)
    requires s != ""
    ensures (held + [s[0]]) + s[1..] == held + s == held + ([s[0]] + s[1..])
  {
  }

  // ---------- What the clean text is like ----------

  lemma {:induction false} PassIsTidy(s: string, held: string, nl: bool)
    requires AllBlank(held) && (nl ==> held == "")
    ensures var r := Pass(s, held, nl); Tidy(r) && (nl && r != "" ==> !Blank(r[0]))
    decreases |s|
  {
    if s != "" {
      if Blank(s[0]) {
        PassIsTidy(s[1..], if nl then held else held + [s[0]], nl);
      } else {
        PassIsTidy(s[1..], "", s[0] == '\n');
      }
    }
  }

  lemma {:induction false} BlanksDoNotCount(held: string, t: string)
    requires AllBlank(held)
    ensures NonBlanks(held + t) == NonBlanks(t)
    decreases |held|
  {
    if held == "" {
      assert held + t == t;
    } else {
      BlanksDoNotCount(held[1..], t);
      assert (held + t)[1..] == held[1..] + t;
    }
  }

  /** All other characters, newlines among them, stay in order. */
  lemma {:induction false} PassKeepsTheRest(s: string, held: string, nl: bool)
    requires AllBlank(held)
    ensures NonBlanks(Pass(s, held, nl)) == NonBlanks(s)
    decreases |s|
  {
    if s == "" {
      BlanksDoNotCount(held, "");
      assert held + "" == held;
    } else {
      var rest := s[1..];
      if Blank(s[0]) {
        PassKeepsTheRest(rest, if nl then held else held + [s[0]], nl);
      } else {
        PassKeepsTheRest(rest, "", s[0] == '\n');
        var r := Pass(rest, "", s[0] == '\n');
        BlanksDoNotCount(held, [s[0]] + r);
        assert ([s[0]] + r)[1..] == r;
      }
    }
  }

  lemma EmptyLineBehind(a: string, t: string)
    requires EmptyLine(t)
    ensures EmptyLine(a + t)
  {
    var k :| 0 <= k < |t| - 1 && t[k] == '\n' && t[k + 1] == '\n';
    assert (a + t)[|a| + k] == '\n' && (a + t)[|a| + k + 1] == '\n';
  }

  lemma {:induction false} PassKeepsEmptyLines(s: string, held: string, nl: bool, i: nat)
    requires i + 1 < |s| && s[i] == '\n' && s[i + 1] == '\n'
    ensures EmptyLine(Pass(s, held, nl))
    decreases i
  {
    hide Pass, EmptyLine;
    var rest := s[1..];
    PassUnfolds(s, held, nl);
    if i == 0 {
      PassUnfolds(rest, "", true);
      var t := Pass(rest[1..], "", true);
      TwoNewlines(t, Pass(s, held, nl));
    } else {
      var held' := if Blank(s[0]) then (if nl then held else held + [s[0]]) else "";
      var nl' := if Blank(s[0]) then nl else s[0] == '\n';
      PassKeepsEmptyLines(rest, held', nl', i - 1);
      if !Blank(s[0]) {
        var t := Pass(rest, held', nl');
        EmptyLineBehind([s[0]], t);
        EmptyLineBehind(if s[0] == '\n' then "" else held, [s[0]] + t);
      }
    }
  }

  lemma TwoNewlines(t: string, r: string)
    requires r == "" + (['\n'] + ("" + (['\n'] + t)))
    ensures EmptyLine(r)
  {
    assert r[0] == '\n' && r[1] == '\n';
  }

  // ---------- The properties of the clean text ----------

  /** The clean text has no blank next to a newline, keeps every other character in order, keeps an
      empty line, and is not changed by cleaning it again. */
  lemma CleanText(s: string)
    ensures Tidy(Clean(s, 0))
    ensures NonBlanks(Clean(s, 0)) == NonBlanks(s)
    ensures EmptyLine(s) ==> EmptyLine(Clean(s, 0))
    ensures Clean(Clean(s, 0), 0) == Clean(s, 0)
  {
    hide Clean, Pass;
    PassIsClean(s);
    PassIsTidy(s, "", false);
    PassKeepsTheRest(s, "", false);
    if EmptyLine(s) {
      var i :| 0 <= i < |s| - 1 && s[i] == '\n' && s[i + 1] == '\n';
      PassKeepsEmptyLines(s, "", false, i);
    }
    var t := Clean(s, 0);
    PassIsClean(t);
    TidyIsFixed(t, "", false);
    assert "" + t == t;
  }

  /** Which pairs of characters a clean text does not have. */
  lemma CleanHasNoPair(s: string, before: string, after: string)
    ensures Clean(s, 0) != before + "\n " + after && Clean(s, 0) != before + "\n\t" + after
    ensures Clean(s, 0) != before + " \n" + after && Clean(s, 0) != before + "\t\n" + after
  {
    hide Clean;
    CleanText(s);
    NotTidy(before, "\n ", after);
    NotTidy(before, "\n\t", after);
    NotTidy(before, " \n", after);
    NotTidy(before, "\t\n", after);
  }

  lemma NotTidy(before: string, pair: string, after: string)
    requires pair in {"\n ", "\n\t", " \n", "\t\n"}
    ensures !Tidy(before + pair + after)
  {
    var text, i := before + pair + after, |before|;
    assert text[i] == pair[0] && text[i + 1] == pair[1];
  }

  // ---------- The clean-up ----------

  /** Where a pair of characters first occurs, -1 if nowhere. */
  function Pair(s: string, a: char, b: char, i: nat): (p: int)
    requires i <= |s|
    ensures p == -1 || (i <= p < |s| - 1 && s[p] == a && s[p + 1] == b)
    ensures p == -1 ==> forall k :: i <= k < |s| - 1 ==> !(s[k] == a && s[k + 1] == b)
    decreases |s| - i
  {
    if i + 1 >= |s| then -1 else if s[i] == a && s[i + 1] == b then i else Pair(s, a, b, i + 1)
  }

  /** Deletes the blank of every pair of a newline and that blank, in one order of the two. */
  method DeletePairs(text: string, blank: char, newlineFirst: bool) returns (msg: string, changed: bool)
    requires Blank(blank)
    ensures Clean(msg, 0) == Clean(text, 0)
    ensures |msg| <= |text| && (changed <==> |msg| < |text|) && (!changed ==> msg == text)
    ensures Pair(msg, if newlineFirst then '\n' else blank, if newlineFirst then blank else '\n', 0) == -1
  {
    hide Clean, Pass, Pair;
    msg, changed := text, false;
    while true
      invariant Clean(msg, 0) == Clean(text, 0)
      invariant |msg| <= |text| && (changed <==> |msg| < |text|) && (!changed ==> msg == text)
      decreases |msg|
    {
      var p := Pair(msg, if newlineFirst then '\n' else blank, if newlineFirst then blank else '\n', 0);
      if p < 0 {
        break;
      }
      PassIsClean(msg);
      if newlineFirst {
        DeleteAfter(msg, p, "", false);
        msg := msg[..p + 1] + msg[p + 2..];
      } else {
        DeleteBefore(msg, p, "", false);
        msg := msg[..p] + msg[p + 1..];
      }
      PassIsClean(msg);
      changed := true;
    }
  }

  /** Repeats the four deletions until a round changes nothing. */
  method CleanUp(text: string) returns (msg: string)
    ensures msg == Clean(text, 0) && Tidy(msg)
  {
    hide Clean, Pass, Pair;
    msg := text;
    var changed := true;
    while changed
      invariant Clean(msg, 0) == Clean(text, 0)
      invariant !changed ==> Tidy(msg)
      decreases |msg|, changed
    {
      var a, b, c, d;
      msg, a := DeletePairs(msg, ' ', true);
      msg, b := DeletePairs(msg, ' ', false);
      msg, c := DeletePairs(msg, '\t', true);
      msg, d := DeletePairs(msg, '\t', false);
      changed := a || b || c || d;
    }
    PassIsClean(msg);
    TidyIsFixed(msg, "", false);
    assert "" + msg == msg;
  }

  /** Where the space at the front of a text ends, and where the space at its end begins. */
  function Front(s: string, i: nat): (n: nat)
    requires i <= |s|
    ensures i <= n <= |s| && (n < |s| ==> !Space(s[n])) && forall k :: i <= k < n ==> Space(s[k])
    decreases |s| - i
  {
    if i < |s| && Space(s[i]) then Front(s, i + 1) else i
  }

  function Back(s: string, i: nat): (n: nat)
    requires i <= |s|
    ensures n <= i && (n > 0 ==> !Space(s[n - 1])) && forall k :: n <= k < i ==> Space(s[k])
  {
    if i > 0 && Space(s[i - 1]) then Back(s, i - 1) else i
  }

  /** The text without space at either end. */
  function Stripped(src: string): (s: string)
    ensures s != "" ==> !Space(s[0]) && !Space(s[|s| - 1])
  {
    var s := src[Front(src, 0)..];
    s[..Back(s, |s|)]
  }

  function Newlines(s: string, i: nat): nat
    requires i <= |s|
    decreases |s| - i
  {
    if i == |s| then 0 else (if s[i] == '\n' then 1 else 0) + Newlines(s, i + 1)
  }

  /** The whole function. A section is refused when just one character is left of it; one with nothing
      left is taken, and comes out as an empty line. The second result counts the newlines taken off
      the end. */
  method CleanCdata(src: string) returns (result: Result, removedCrlf: nat)
    ensures result.Err? <==> |Stripped(src)| == 1
    ensures result.Ok? ==> result.text == Clean(WithEmptyLine(Stripped(src)), 0)
    ensures result.Ok? ==> Tidy(result.text) && EmptyLine(result.text)
    ensures var s := src[Front(src, 0)..]; removedCrlf == Newlines(s, |Stripped(src)|)
  {
    hide Clean, Tidy, EmptyLine, WithEmptyLine;
    var i := SkipSpace(src);
    var msg := src[i..];
    var end;
    end, removedCrlf := CutSpace(msg);
    result := Cleaned(msg[..end]);
  }

  /** The first loop: over the space in front. */
  method SkipSpace(src: string) returns (i: nat)
    ensures i == Front(src, 0)
  {
    i := 0;
    while i < |src| && (src[i] == ' ' || src[i] == '\t' || src[i] == '\n')
      invariant 0 <= i <= |src| && Front(src, i) == Front(src, 0)
    {
      i := i + 1;
    }
  }

  /** The second loop: over the space at the end, counting its newlines. */
  method CutSpace(msg: string) returns (end: nat, removedCrlf: nat)
    ensures end == Back(msg, |msg|) && removedCrlf == Newlines(msg, end)
  {
    end := |msg|;
    removedCrlf := 0;
    while end > 0 && (msg[end - 1] == ' ' || msg[end - 1] == '\t' || msg[end - 1] == '\n')
      invariant 0 <= end <= |msg| && Back(msg, end) == Back(msg, |msg|)
      invariant removedCrlf == Newlines(msg, end)
    {
      if msg[end - 1] == '\n' {
        removedCrlf := removedCrlf + 1;
      }
      end := end - 1;
    }
  }

  function WithEmptyLine(s: string): string {
    if Pair(s, '\n', '\n', 0) < 0 then s + "\n\n" else s
  }

  lemma HasEmptyLine(s: string)
    ensures EmptyLine(WithEmptyLine(s))
  {
    if Pair(s, '\n', '\n', 0) < 0 {
      var t := s + "\n\n";
      assert t[|s|] == '\n' && t[|s| + 1] == '\n';
    }
  }

  /** Adding the empty line goes to the end, and only where there is none. */
  lemma EmptyLineAtTheEnd(s: string)
    ensures WithEmptyLine(s) == if EmptyLine(s) then s else s + "\n\n"
  {
  }

  lemma {:induction false} PassBeforeNewlines(s: string, held: string, nl: bool)
    requires s != "" && !Space(s[|s| - 1])
    ensures Pass(s + "\n\n", held, nl) == Pass(s, held, nl) + "\n\n"
    decreases |s|
  {
    hide Pass;
    var rest := s[1..];
    assert (s + "\n\n")[1..] == rest + "\n\n" && (s + "\n\n")[0] == s[0];
    PassUnfolds(s, held, nl);
    PassUnfolds(s + "\n\n", held, nl);
    var nl' := s[0] == '\n';
    if rest == "" {
      PassOfNewlines();
      assert rest + "\n\n" == "\n\n";
      assert Pass(rest, "", nl') == "" by {
        PassOfNothing(nl');
      }
    } else if Blank(s[0]) {
      PassBeforeNewlines(rest, if nl then held else held + [s[0]], nl);
    } else {
      PassBeforeNewlines(rest, "", nl');
    }
  }

  lemma PassOfNewlines()
    ensures Pass("\n\n", "", false) == "\n\n"
  {
    assert "\n\n"[1..] == "\n" && "\n"[1..] == "";
    assert Pass("\n", "", true) == "\n" + Pass("", "", true) == "\n";
  }

  lemma PassOfNothing(nl: bool)
    ensures Pass("", "", nl) == ""
  {
  }

  /** So a stripped text without an empty line is cleaned, and the empty line stands behind it. */
  lemma CleanedThenEmptyLine(s: string)
    requires s != "" && !Space(s[|s| - 1]) && !EmptyLine(s)
    ensures Clean(WithEmptyLine(s), 0) == Clean(s, 0) + "\n\n"
  {
    hide Clean, Pass;
    EmptyLineAtTheEnd(s);
    PassBeforeNewlines(s, "", false);
    PassIsClean(s);
    PassIsClean(s + "\n\n");
  }

  /** Stripping takes space, and nothing else, off both ends, and all of it. */
  lemma StrippedIs(src: string)
    ensures var s, i := Stripped(src), Front(src, 0);
      && i + |s| <= |src| && src[i..i + |s|] == s
      && (forall k :: 0 <= k < i ==> Space(src[k])) && (forall k :: i + |s| <= k < |src| ==> Space(src[k]))
      && (s != "" ==> !Space(s[0]) && !Space(s[|s| - 1]))
  {
    var i := Front(src, 0);
    assert forall k :: i <= k < |src| ==> src[k] == src[i..][k - i];
  }

  method Cleaned(s: string) returns (result: Result)
    ensures result.Err? <==> |s| == 1
    ensures result.Ok? ==> result.text == Clean(WithEmptyLine(s), 0) && Tidy(result.text) && EmptyLine(result.text)
  {
    hide Clean, Pass, EmptyLine, WithEmptyLine;
    var msg := WithEmptyLine(s);
    if |s| == 1 {
      return Err("Empty cdata in xml scenario file");
    }
    HasEmptyLine(s);
    CleanText(msg);
    msg := CleanUp(msg);
    return Ok(msg);
  }
}
