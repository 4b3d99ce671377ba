/** The index from lines of the flattened scenario text back to the files it was included from. It
    keeps one image of the include stack for every stretch of lines read under the same stack; the
    last image is the live one. The image list is proved to answer as a plain replay of the recorded
    history would. */
module CompositeDocument {

  datatype BookMark = BookMark(doc: string, localLine: int)

  datatype DocStack = DocStack(docs: seq<BookMark>, compositeLine: int) {
    function Push(doc: string): DocStack {
      this.(docs := docs + [BookMark(doc, 1)])
    }

    function Pop(): DocStack
      requires docs != []
    {
      this.(docs := docs[..|docs| - 1])
    }

    /** The composite line and the top document's own line advance together. */
    function NextLine(): DocStack
      requires docs != []
    {
      ReduceBothLineNumBy(-1)
    }

    function ReduceBothLineNumBy(delta: int): DocStack
      requires docs != []
    {
      var top := docs[|docs| - 1];
      DocStack(docs[|docs| - 1 := top.(localLine := top.localLine - delta)], compositeLine - delta)
    }
  }

  const EMPTY := DocStack([], 1)

  /** What the XML reader reports while it copies the text: a file is entered, a newline is written
      at a byte offset, a file is left. */
  datatype Event = Include(name: string) | Newline(offset: int) | End

  function Init<T>(s: seq<T>): seq<T>
    requires s != []
  {
    s[..|s| - 1]
  }

  function Last<T>(s: seq<T>): T
    requires s != []
  {
    s[|s| - 1]
  }

  // ---------- Replay: one stack, no index ----------

  /** How many files are open. */
  function Depth(es: seq<Event>): int {
    if es == [] then 0
    else Depth(Init(es)) + (match Last(es) case Include(_) => 1 case Newline(_) => 0 case End => -1)
  }

  function Newlines(es: seq<Event>): nat {
    if es == [] then 0 else Newlines(Init(es)) + (if Last(es).Newline? then 1 else 0)
  }

  /** Newlines and ends happen inside some file: the program reads the top of the stack. */
  ghost predicate WellFormed(es: seq<Event>) {
    es == [] || (WellFormed(Init(es)) && (Last(es).Include? || Depth(Init(es)) > 0))
  }

  function After(s: DocStack, e: Event): DocStack
    requires e.Include? || s.docs != []
  {
    match e
    case Include(name) => s.Push(name)
    case Newline(_) => s.NextLine()
    case End => s.Pop()
  }

  ghost function Replay(es: seq<Event>): (s: DocStack)
    requires WellFormed(es)
    ensures |s.docs| == Depth(es)
    ensures s.compositeLine == 1 + Newlines(es)
  {
    if es == [] then EMPTY else After(Replay(Init(es)), Last(es))
  }

  lemma {:induction false} PrefixWellFormed(es: seq<Event>, n: nat)
    requires WellFormed(es) && n <= |es|
    ensures WellFormed(es[..n])
  {
    if n == |es| {
      assert es[..n] == es;
    } else {
      PrefixWellFormed(Init(es), n);
      assert Init(es)[..n] == es[..n];
    }
  }

  /** The position in the history of the t-th newline. */
  ghost function NewlineAt(es: seq<Event>, t: nat): (k: nat)
    requires 1 <= t <= Newlines(es)
    ensures k < |es| && es[k].Newline?
  {
    if Last(es).Newline? && Newlines(es) == t then |es| - 1 else NewlineAt(Init(es), t)
  }

  // ---------- The index ----------

  function Record(c: seq<DocStack>, e: Event): (c': seq<DocStack>)
    requires e.Include? || (c != [] && Last(c).docs != [])
    ensures c' != [] && Last(c') == After(if c == [] then EMPTY else Last(c), e)
  {
    match e
    case Include(name) => c + [(if c == [] then EMPTY else Last(c)).Push(name)]
    case Newline(_) => c[|c| - 1 := Last(c).NextLine()]
    case End => c + [Last(c).Pop()]
  }

  /** The image list a history leads to. */
  ghost function Images(es: seq<Event>): (c: seq<DocStack>)
    requires WellFormed(es)
    ensures es == [] ==> c == []
    ensures es != [] ==> c != [] && Last(c) == Replay(es)
  {
    if es == [] then [] else Record(Images(Init(es)), Last(es))
  }

  /** Lines never run backwards from image to image, and an image without open files was made by
      leaving the last one and has recorded no line of its own. */
  ghost predicate Stacked(c: seq<DocStack>) {
    && (forall i, j :: 0 <= i <= j < |c| ==> c[i].compositeLine <= c[j].compositeLine)
    && (forall i :: 0 <= i < |c| && c[i].docs == [] ==> i > 0 && c[i - 1].compositeLine == c[i].compositeLine)
  }

  lemma RecordKeepsStacked(c: seq<DocStack>, e: Event)
    requires Stacked(c) && (e.Include? || (c != [] && Last(c).docs != []))
    ensures Stacked(Record(c, e))
  {
  }

  lemma {:induction false} ImagesAreStacked(es: seq<Event>)
    requires WellFormed(es)
    ensures Stacked(Images(es))
  {
    if es != [] {
      ImagesAreStacked(Init(es));
      RecordKeepsStacked(Images(Init(es)), Last(es));
    }
  }

  /** i is the first image whose line number has passed t. */
  ghost predicate IsFirstPast(c: seq<DocStack>, t: int, i: nat) {
    && i < |c| && c[i].compositeLine > t
    && forall j :: 0 <= j < i ==> c[j].compositeLine <= t
  }

  /** The answer for line t, found at image i: the image before, if the stretch of line t began by
      leaving a file at that very line; otherwise image i, wound back to line t. */
  function AnswerAt(c: seq<DocStack>, t: int, i: nat): DocStack
    requires i < |c| && c[i].docs != []
  {
    if i > 0 && |c[i].docs| < |c[i - 1].docs| && c[i - 1].compositeLine == t then c[i - 1]
    else c[i].ReduceBothLineNumBy(c[i].compositeLine - t)
  }

  /** What the index is for. */
  ghost function LiveAtLine(es: seq<Event>, t: nat): DocStack
    requires WellFormed(es) && 1 <= t <= Newlines(es)
  {
    var k := NewlineAt(es, t);
    PrefixWellFormed(es, k);
    if k > 0 && es[k - 1].End? then PrefixWellFormed(es, k - 1); Replay(es[..k - 1]) else Replay(es[..k])
  }

  /** The image that answers for the line being read: by comparing the last two, the index tells
      whether a file has just been left. */
  function PickLast(c: seq<DocStack>): DocStack
    requires c != []
  {
    var n := |c| - 1;
    if n > 0 && |c[n].docs| < |c[n - 1].docs| && c[n - 1].compositeLine == c[n].compositeLine then c[n - 1] else c[n]
  }

  lemma PickLastSeesTheEnd(es: seq<Event>)
    requires WellFormed(es) && es != []
    ensures PickLast(Images(es)) == if Last(es).End? then Replay(Init(es)) else Replay(es)
  {
    ImagesAreStacked(Init(es));
  }

  /** Recording more does not move a finished line to another image, nor change the answer there. */
  lemma FinishedLineStays(c: seq<DocStack>, e: Event, t: int, i: nat)
    requires c != [] && Last(c).compositeLine > t && (e.Include? || Last(c).docs != [])
    requires IsFirstPast(Record(c, e), t, i)
    ensures IsFirstPast(c, t, i)
    ensures c[i].docs != [] ==> Record(c, e)[i].docs != [] && AnswerAt(Record(c, e), t, i) == AnswerAt(c, t, i)
  {
    var c' := Record(c, e);
    assert forall j :: 0 <= j < |c| - 1 ==> c'[j] == c[j];
    if e.Newline? {
      assert |c'| == |c| && Last(c') == Last(c).NextLine();
      if i == |c| - 1 {
        WindingBack(Last(c), Last(c).compositeLine - t);
      }
    } else {
      assert c'[|c| - 1] == Last(c);
    }
  }

  lemma WindingBack(s: DocStack, delta: int)
    requires s.docs != []
    ensures s.NextLine().ReduceBothLineNumBy(delta + 1) == s.ReduceBothLineNumBy(delta)
  {
  }

  lemma SameLine(es: seq<Event>, t: nat)
    requires WellFormed(es) && es != [] && 1 <= t <= Newlines(Init(es))
    ensures LiveAtLine(es, t) == LiveAtLine(Init(es), t)
  {
    var k := NewlineAt(Init(es), t);
    assert es[..k] == Init(es)[..k];
    if k > 0 {
      assert es[..k - 1] == Init(es)[..k - 1];
    }
  }

  /** The line whose newline is just being recorded is found in the last image. */
  lemma NewestLineIsLast(c: seq<DocStack>, e: Event, i: nat)
    requires Stacked(c) && c != [] && Last(c).docs != [] && e.Newline?
    requires IsFirstPast(Record(c, e), Last(c).compositeLine, i)
    ensures i == |c| - 1 && Record(c, e)[i].docs != []
    ensures AnswerAt(Record(c, e), Last(c).compositeLine, i) == PickLast(c)
  {
  }

  lemma NewestLineLive(es: seq<Event>)
    requires WellFormed(es) && es != [] && Last(es).Newline?
    ensures Init(es) != [] && WellFormed(Init(Init(es)))
    ensures LiveAtLine(es, Newlines(es)) ==
            if Last(Init(es)).End? then Replay(Init(Init(es))) else Replay(Init(es))
  {
    assert es[..|es| - 1] == Init(es);
    assert Init(es) != [];
    assert es[..|es| - 2] == Init(Init(es));
  }

  lemma NewestLine(es: seq<Event>, i: nat)
    requires WellFormed(es) && es != [] && Last(es).Newline?
    requires IsFirstPast(Images(es), Newlines(es), i)
    ensures Images(es)[i].docs != []
    ensures AnswerAt(Images(es), Newlines(es), i) == LiveAtLine(es, Newlines(es))
  {
    var init := Init(es);
    ImagesAreStacked(init);
    NewestLineIsLast(Images(init), Last(es), i);
    NewestLineLive(es);
    PickLastSeesTheEnd(init);
  }

  /** Looking a finished line up gives the stack that was live just before the line's newline was
      recorded or, when that newline directly follows the end of a file, the deeper stack as it stood
      when the file was left. */
  lemma {:induction false} LookupAgreesWithReplay(es: seq<Event>, t: nat, i: nat)
    requires WellFormed(es) && 1 <= t <= Newlines(es)
    requires IsFirstPast(Images(es), t, i)
    ensures Images(es)[i].docs != []
    ensures AnswerAt(Images(es), t, i) == LiveAtLine(es, t)
  {
    var c, c' := Images(Init(es)), Images(es);
    ImagesAreStacked(es);
    ImagesAreStacked(Init(es));
    if t <= Newlines(Init(es)) {
      FinishedLineStays(c, Last(es), t, i);
      LookupAgreesWithReplay(Init(es), t, i);
      SameLine(es, t);
    } else {
      NewestLine(es, i);
    }
  }

  // ---------- Nesting ----------

  lemma {:induction false} DepthAppends(pre: seq<Event>, es: seq<Event>)
    ensures Depth(pre + es) == Depth(pre) + Depth(es)
  {
    if es == [] {
      assert pre + es == pre;
    } else {
      assert Init(pre + es) == pre + Init(es);
      DepthAppends(pre, Init(es));
    }
  }

  /** Whatever a nested stretch of history does, the files already open keep their place and lines,
      and its own part of the stack is what the stretch would have built alone. */
  lemma {:induction false} NestedReplay(pre: seq<Event>, es: seq<Event>)
    requires WellFormed(pre) && WellFormed(es)
    ensures WellFormed(pre + es)
    ensures Replay(pre + es).docs == Replay(pre).docs + Replay(es).docs
    ensures Replay(pre + es).compositeLine == Replay(pre).compositeLine + Newlines(es)
  {
    if es == [] {
      assert pre + es == pre;
    } else {
      assert Init(pre + es) == pre + Init(es);
      NestedReplay(pre, Init(es));
      DepthAppends(pre, Init(es));
      assert Depth(pre) == |Replay(pre).docs|;
      NestedStep(Replay(pre).docs, Replay(pre + Init(es)), Replay(Init(es)), Last(es));
    }
  }

  lemma NestedStep(below: seq<BookMark>, s: DocStack, inner: DocStack, e: Event)
    requires s.docs == below + inner.docs && (e.Include? || inner.docs != [])
    ensures After(s, e).docs == below + After(inner, e).docs
    ensures After(s, e).compositeLine - s.compositeLine == After(inner, e).compositeLine - inner.compositeLine
  {
  }

  /** A stretch in which every file entered is left again, and text is read only inside one, leaves
      the enclosing bookmarks and their lines exactly as they were; only the composite line has moved,
      by the newlines recorded. */
  lemma BracketedStretchRestores(pre: seq<Event>, es: seq<Event>)
    requires WellFormed(pre) && WellFormed(es) && Depth(es) == 0
    ensures WellFormed(pre + es)
    ensures Replay(pre + es) == DocStack(Replay(pre).docs, Replay(pre).compositeLine + Newlines(es))
  {
    NestedReplay(pre, es);
  }

  /** While only newlines are recorded, the top document's line and the composite line grow alike. */
  lemma {:induction false} StretchGrowsAlike(pre: seq<Event>, lines: seq<Event>)
    requires WellFormed(pre) && Depth(pre) > 0
    requires forall k :: 0 <= k < |lines| ==> lines[k].Newline?
    ensures WellFormed(pre + lines)
    ensures Replay(pre + lines) == Replay(pre).ReduceBothLineNumBy(-|lines|)
  {
    if lines == [] {
      assert pre + lines == pre;
    } else {
      assert Init(pre + lines) == pre + Init(lines);
      StretchGrowsAlike(pre, Init(lines));
    }
  }

  // ---------- What is blamed for a line ----------

  /** While a file that has been entered is read, it is on top under its own name, at line 1 when it is
      entered and one further for each newline, on top of the files it was entered from. */
  lemma {:induction false} EnteredFileCountsFromOne(pre: seq<Event>, f: string, lines: seq<Event>)
    requires WellFormed(pre) && forall k :: 0 <= k < |lines| ==> lines[k].Newline?
    ensures WellFormed(pre + [Include(f)] + lines)
    ensures Replay(pre + [Include(f)] + lines)
            == DocStack(Replay(pre).docs + [BookMark(f, 1 + |lines|)], 1 + Newlines(pre) + |lines|)
  {
    var es := pre + [Include(f)] + lines;
    if lines == [] {
      assert es == pre + [Include(f)];
      assert Init(es) == pre;
    } else {
      assert Init(es) == pre + [Include(f)] + Init(lines);
      EnteredFileCountsFromOne(pre, f, Init(lines));
    }
  }

  lemma {:induction false} NewlinesAppend(es: seq<Event>, more: seq<Event>)
    ensures Newlines(es + more) == Newlines(es) + Newlines(more)
  {
    if more == [] {
      assert es + more == es;
    } else {
      assert Init(es + more) == es + Init(more);
      NewlinesAppend(es, Init(more));
    }
  }

  lemma LastNewlineAt(es: seq<Event>, offset: int)
    ensures Newlines(es + [Newline(offset)]) == Newlines(es) + 1
    ensures NewlineAt(es + [Newline(offset)], Newlines(es) + 1) == |es|
  {
    assert Init(es + [Newline(offset)]) == es;
  }

  /** What follows does not change what is blamed for a finished line. */
  lemma {:induction false} BlameStays(es: seq<Event>, more: seq<Event>, t: nat)
    requires WellFormed(es) && WellFormed(es + more) && 1 <= t <= Newlines(es)
    ensures Newlines(es + more) >= t && LiveAtLine(es + more, t) == LiveAtLine(es, t)
    decreases |more|
  {
    if more == [] {
      assert es + more == es;
    } else {
      assert Init(es + more) == es + Init(more);
      PrefixWellFormed(es + more, |es + more| - 1);
      assert (es + more)[..|es + more| - 1] == Init(es + more);
      BlameStays(es, Init(more), t);
      SameLine(es + more, t);
    }
  }

  /** The line whose newline directly follows `head` in a longer history. */
  lemma BlameBehind(head: seq<Event>, offset: int, more: seq<Event>)
    requires head != [] && WellFormed(head) && WellFormed(head + [Newline(offset)] + more)
    ensures var es, t := head + [Newline(offset)] + more, Newlines(head) + 1;
      && t <= Newlines(es)
      && LiveAtLine(es, t) == if Last(head).End? then Replay(Init(head)) else Replay(head)
  {
    var es := head + [Newline(offset)];
    LastNewlineAt(head, offset);
    PrefixWellFormed(es + more, |es|);
    assert (es + more)[..|es|] == es && es[..|head|] == head && es[..|head| - 1] == Init(head);
    hide Newlines, NewlineAt;
    BlameStays(es, more, Newlines(head) + 1);
  }

  lemma WellFormedHead(head: seq<Event>, e: Event, more: seq<Event>)
    requires WellFormed(head + [e] + more)
    ensures WellFormed(head)
  {
    PrefixWellFormed(head + [e] + more, |head|);
    assert (head + [e] + more)[..|head|] == head;
  }

  /** A line read directly in a file is blamed on that file, with the line's own number in it, inside the
      files it was entered from. */
  lemma LineBlamesItsFile(pre: seq<Event>, f: string, lines: seq<Event>, offset: int, more: seq<Event>)
    requires WellFormed(pre) && forall k :: 0 <= k < |lines| ==> lines[k].Newline?
    requires WellFormed(pre + [Include(f)] + lines + [Newline(offset)] + more)
    ensures var es, t := pre + [Include(f)] + lines + [Newline(offset)] + more, 1 + Newlines(pre) + |lines|;
      && t <= Newlines(es)
      && LiveAtLine(es, t) == DocStack(Replay(pre).docs + [BookMark(f, 1 + |lines|)], t)
  {
    hide WellFormed, Newlines, NewlineAt, Depth, LiveAtLine;
    var head := pre + [Include(f)] + lines;
    WellFormedHead(head, Newline(offset), more);
    EnteredFileCountsFromOne(pre, f, lines);
    BlameBehind(head, offset, more);
    assert !Last(head).End?;
  }

  /** The newline right behind the end of a file is still blamed on that file, at the line it ended on. */
  lemma LineAfterEndBlamesTheFileLeft(pre: seq<Event>, f: string, lines: seq<Event>, offset: int, more: seq<Event>)
    requires WellFormed(pre) && forall k :: 0 <= k < |lines| ==> lines[k].Newline?
    requires WellFormed(pre + [Include(f)] + lines + [End] + [Newline(offset)] + more)
    ensures var es, t := pre + [Include(f)] + lines + [End] + [Newline(offset)] + more, 1 + Newlines(pre) + |lines|;
      && t <= Newlines(es)
      && LiveAtLine(es, t) == DocStack(Replay(pre).docs + [BookMark(f, 1 + |lines|)], t)
  {
    var head := pre + [Include(f)] + lines;
    EndAddsNoLine(head);
    hide WellFormed, Newlines, NewlineAt, Depth, LiveAtLine, Replay;
    WellFormedHead(head + [End], Newline(offset), more);
    EnteredFileCountsFromOne(pre, f, lines);
    BlameBehind(head + [End], offset, more);
  }

  lemma EndAddsNoLine(head: seq<Event>)
    ensures Newlines(head + [End]) == Newlines(head) && Init(head + [End]) == head
  {
  }

  /** In the file that was left off for another one, a later line has the number it has in that file. */
  lemma LineAfterReturnBlamesTheOuterFile(pre: seq<Event>, inner: seq<Event>, lines: seq<Event>, offset: int,
          more: seq<Event>)
    requires WellFormed(pre) && Depth(pre) > 0 && WellFormed(inner) && Depth(inner) == 0
    requires lines != [] && forall k :: 0 <= k < |lines| ==> lines[k].Newline?
    requires WellFormed(pre + inner + lines + [Newline(offset)] + more)
    ensures var es, t := pre + inner + lines + [Newline(offset)] + more, 1 + Newlines(pre) + Newlines(inner) + |lines|;
      && t <= Newlines(es)
      && var docs, n := Replay(pre).docs, |Replay(pre).docs| - 1;
         LiveAtLine(es, t) == DocStack(docs[n := BookMark(docs[n].doc, docs[n].localLine + |lines|)], t)
  {
    var head := pre + inner + lines;
    DepthAppends(pre, inner);
    hide WellFormed, Newlines, NewlineAt, Depth, LiveAtLine;
    WellFormedHead(head, Newline(offset), more);
    BracketedStretchRestores(pre, inner);
    StretchGrowsAlike(pre + inner, lines);
    BlameBehind(head, offset, more);
    assert Last(head) == lines[|lines| - 1];
  }

  // ---------- From a byte to its line ----------

  function Offsets(es: seq<Event>): (o: seq<int>)
    ensures |o| == Newlines(es)
  {
    if es == [] then []
    else Offsets(Init(es)) + (match Last(es) case Newline(offset) => [offset] case _ => [])
  }

  /** n is the line whose newline is the first at or after the byte. */
  ghost predicate IsLineOfByte(offsets: seq<int>, index: int, n: nat) {
    && 1 <= n <= |offsets| + 1
    && (n <= |offsets| ==> index <= offsets[n - 1])
    && forall j :: 0 <= j < n - 1 ==> offsets[j] < index
  }

  /** With newlines at ascending offsets, the newline of line n, and the text before it back to the last
      newline, belong to line n; so there is one line for every byte. */
  lemma BytesOfLine(offsets: seq<int>, index: int, n: nat, m: nat)
    requires forall i, j :: 0 <= i < j < |offsets| ==> offsets[i] < offsets[j]
    requires 1 <= n <= |offsets| && (n > 1 ==> offsets[n - 2] < index) && index <= offsets[n - 1]
    ensures IsLineOfByte(offsets, index, m) <==> m == n
  {
    if m < n && 1 <= m <= |offsets| {
      assert offsets[m - 1] <= offsets[n - 2];
    }
  }

  // ---------- The object ----------

  class Index {
    var images: seq<DocStack>
    var lineToOffset: seq<int>
    ghost var history: seq<Event>

    ghost predicate Valid()
      reads this
    {
      WellFormed(history) && images == Images(history) && lineToOffset == Offsets(history)
    }

    constructor ()
      ensures Valid() && history == []
    {
      images, lineToOffset, history := [], [], [];
    }

    method IncludeFile(name: string)
      requires Valid()
      modifies this
      ensures Valid() && history == old(history) + [Include(name)]
    {
      var stack := EMPTY;
      if |images| != 0 {
        stack := images[|images| - 1];
      }
      images := images + [stack.Push(name)];
      history := history + [Include(name)];
      assert Init(history) == old(history);
    }

    /** A newline at a byte offset; returns the new line of the file being read. */
    method IncrLine(offset: int) returns (local: int)
      requires Valid() && Depth(history) > 0
      modifies this
      ensures Valid() && history == old(history) + [Newline(offset)]
      ensures local == Last(Replay(history).docs).localLine
    {
      lineToOffset := lineToOffset + [offset];
      images := images[|images| - 1 := images[|images| - 1].NextLine()];
      history := history + [Newline(offset)];
      assert Init(history) == old(history);
      local := Last(Last(images).docs).localLine;
    }

    method EndIncludeFile()
      requires Valid() && Depth(history) > 0
      modifies this
      ensures Valid() && history == old(history) + [End]
    {
      images := images + [images[|images| - 1].Pop()];
      history := history + [End];
      assert Init(history) == old(history);
    }

    method Reset()
      modifies this
      ensures Valid() && history == []
    {
      images, lineToOffset, history := [], [], [];
    }

    /** The stack to blame for composite line t; no stack at all if line t is not finished. */
    method DocStackFromCompositeLineNumber(t: int) returns (target: DocStack)
      requires Valid()
      ensures 1 <= t <= Newlines(history) ==> target == LiveAtLine(history, t)
      ensures t > Newlines(history) ==> target == EMPTY
    {
      ImagesAreStacked(history);
      target := EMPTY;
      var i := 0;
      var found := false;
      while i < |images| && !found
        invariant i <= |images|
        invariant forall j :: 0 <= j < i ==> images[j].compositeLine <= t
        invariant !found ==> target == EMPTY
        invariant found ==> IsFirstPast(images, t, i) && images[i].docs != [] && target == AnswerAt(images, t, i)
        decreases |images| - i, !found
      {
        if images[i].compositeLine > t {
          found := true;
          assert i > 0 ==> images[i - 1].compositeLine <= t;
          target := AnswerAt(images, t, i);
        } else {
          i := i + 1;
        }
      }
      if 1 <= t <= Newlines(history) {
        assert Last(images).compositeLine > t;
        LookupAgreesWithReplay(history, t, i);
      }
    }

    method CompositeLineNumberFromIndex(index: int) returns (n: nat)
      ensures IsLineOfByte(lineToOffset, index, n)
    {
      var i := 0;
      while i < |lineToOffset| && lineToOffset[i] < index
        invariant i <= |lineToOffset|
        invariant forall j :: 0 <= j < i ==> lineToOffset[j] < index
      {
        i := i + 1;
      }
      n := i + 1;
    }

    /** The stack to blame for a byte: the live one past the last newline, otherwise that of its line. */
    method StackFromIndex(index: int) returns (target: DocStack, line: nat)
      requires Valid() && lineToOffset != []
      ensures IsLineOfByte(lineToOffset, index, line)
      ensures if index > Last(lineToOffset) then target == Replay(history)
              else line <= Newlines(history) && target == LiveAtLine(history, line)
    {
      line := CompositeLineNumberFromIndex(index);
      if index > lineToOffset[|lineToOffset| - 1] {
        target := images[|images| - 1];
      } else {
        target := DocStackFromCompositeLineNumber(line);
      }
    }
  }
}
