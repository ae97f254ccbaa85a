/** Sections in `infrastructure/jsmastery_adapter.py`: which lines a closed
    fence covers, heading blocks, and the residue sections of the body. */
module Adapter {
  import opened Options
  import opened Text
  import opened BodyUnits

  // ----- Fences -----

  datatype Mark = Mark(delimiter: char, run: nat)

  function SkipSpace(line: string): string {
    if line != "" && IsSpace(line[0]) then SkipSpace(line[1..]) else line
  }

  function Run(line: string, c: char): nat {
    if line != "" && line[0] == c then 1 + Run(line[1..], c) else 0
  }

  /** The fence pattern: optional whitespace, then three or more of one delimiter. */
  function MarkOf(line: string): Option<Mark> {
    var rest := SkipSpace(line);
    if Run(rest, '`') >= 3 then Some(Mark('`', Run(rest, '`')))
    else if Run(rest, '~') >= 3 then Some(Mark('~', Run(rest, '~')))
    else None
  }

  function Marks(lines: seq<string>): (marks: seq<Option<Mark>>)
    ensures |marks| == |lines|
  {
    seq(|lines|, i requires 0 <= i < |lines| => MarkOf(lines[i]))
  }

  /** A fence closes on its own delimiter, at least as many of them. */
  predicate Closes(opening: Mark, mark: Option<Mark>) {
    mark.Some? && mark.value.delimiter == opening.delimiter && mark.value.run >= opening.run
  }

  datatype Fence = Fence(from: nat, to: nat)

  /** The first line from `i` on with a mark, or the number of lines. */
  function NextMark(marks: seq<Option<Mark>>, i: nat): (j: nat)
    requires i <= |marks|
    ensures i <= j <= |marks| && (j < |marks| ==> marks[j].Some?)
    decreases |marks| - i
  {
    if i == |marks| || marks[i].Some? then i else NextMark(marks, i + 1)
  }

  function NextCloser(marks: seq<Option<Mark>>, i: nat, opening: Mark): (j: nat)
    requires i <= |marks|
    ensures i <= j <= |marks| && (j < |marks| ==> Closes(opening, marks[j]))
    decreases |marks| - i
  {
    if i == |marks| || Closes(opening, marks[i]) then i else NextCloser(marks, i + 1, opening)
  }

  /** The closed fences from line `i` on. An opening that nothing closes covers
      nothing, and nothing behind it is a fence either. */
  function Fences(marks: seq<Option<Mark>>, i: nat): seq<Fence>
    requires i <= |marks|
    decreases |marks| - i
  {
    var start := NextMark(marks, i);
    if start == |marks| then []
    else
      var closed := NextCloser(marks, start + 1, marks[start].value);
      if closed == |marks| then [] else [Fence(start, closed)] + Fences(marks, closed + 1)
  }

  function Span(from: nat, to: nat): (span: set<nat>)
    ensures forall i: nat :: (i in span <==> from <= i <= to)
    decreases if from > to then 0 else to - from + 1
  {
    if from > to then {} else {from} + Span(from + 1, to)
  }

  function Cover(fences: seq<Fence>): set<nat> {
    if fences == [] then {} else Span(fences[0].from, fences[0].to) + Cover(fences[1..])
  }

  function Fenced(lines: seq<string>): set<nat> {
    Cover(Fences(Marks(lines), 0))
  }

  datatype Opening = Outside | Inside(at: nat, mark: Mark)

  /** The line numbers a scan still finds from line `i` on. */
  function Scan(marks: seq<Option<Mark>>, i: nat, opening: Opening): set<nat>
    requires i <= |marks|
    decreases |marks| - i
  {
    if i == |marks| then {}
    else if marks[i].None? then Scan(marks, i + 1, opening)
    else if opening.Outside? then Scan(marks, i + 1, Inside(i, marks[i].value))
    else if Closes(opening.mark, marks[i]) then Span(opening.at, i) + Scan(marks, i + 1, Outside)
    else Scan(marks, i + 1, opening)
  }

  lemma {:induction false} ScanInside(marks: seq<Option<Mark>>, i: nat, at: nat, mark: Mark)
    requires i <= |marks|
    ensures var c := NextCloser(marks, i, mark);
      Scan(marks, i, Inside(at, mark)) == if c == |marks| then {} else Span(at, c) + Scan(marks, c + 1, Outside)
    decreases |marks| - i
  {
    if i < |marks| && !Closes(mark, marks[i]) { ScanInside(marks, i + 1, at, mark); }
  }

  lemma {:induction false} ScanSkips(marks: seq<Option<Mark>>, i: nat)
    requires i <= |marks|
    ensures Scan(marks, i, Outside) == Scan(marks, NextMark(marks, i), Outside)
    decreases |marks| - i
  {
    if i < |marks| && marks[i].None? { ScanSkips(marks, i + 1); }
  }

  /** The scan from `i` on: its first fence, then the scan behind it. */
  lemma ScanUnfolds(marks: seq<Option<Mark>>, i: nat)
    requires i <= |marks|
    ensures var start := NextMark(marks, i);
      Scan(marks, i, Outside) ==
        if start == |marks| then {}
        else
          var closed := NextCloser(marks, start + 1, marks[start].value);
          if closed == |marks| then {} else Span(start, closed) + Scan(marks, closed + 1, Outside)
  {
    var start := NextMark(marks, i);
    ScanSkips(marks, i);
    if start < |marks| { ScanInside(marks, start + 1, start, marks[start].value); }
  }

  /** The scan finds the closed fences. */
  lemma {:induction false} ScanFindsFences(marks: seq<Option<Mark>>, i: nat)
    requires i <= |marks|
    ensures Scan(marks, i, Outside) == Cover(Fences(marks, i))
    decreases |marks| - i
  {
    ScanUnfolds(marks, i);
    var fences := Fences(marks, i);
    if fences != [] {
      ScanFindsFences(marks, fences[0].to + 1);
      assert fences[1..] == Fences(marks, fences[0].to + 1);
    }
  }

  /** `_fenced_line_numbers`. */
  method FencedLineNumbers(lines: seq<string>) returns (fenced: set<nat>)
    ensures fenced == Fenced(lines)
  {
    fenced := ScanMarks(Marks(lines));
    ScanFindsFences(Marks(lines), 0);
  }

  method ScanMarks(marks: seq<Option<Mark>>) returns (fenced: set<nat>)
    ensures fenced == Scan(marks, 0, Outside)
  {
    fenced := {};
    var opening := Outside;
    for index := 0 to |marks|
      invariant fenced + Scan(marks, index, opening) == Scan(marks, 0, Outside)
    {
      if marks[index].Some? {
        if opening.Outside? {
          opening := Inside(index, marks[index].value);
        } else if Closes(opening.mark, marks[index]) {
          fenced := fenced + Span(opening.at, index);
          opening := Outside;
        }
      }
    }
  }

  lemma {:induction false} CoverMembers(fences: seq<Fence>, i: nat)
    ensures i in Cover(fences) <==> exists f :: f in fences && f.from <= i <= f.to
  {
    if fences != [] {
      CoverMembers(fences[1..], i);
      assert fences == [fences[0]] + fences[1..];
    }
  }

  lemma {:induction false} NoCloserBefore(marks: seq<Option<Mark>>, i: nat, opening: Mark)
    requires i <= |marks|
    ensures forall k :: i <= k < NextCloser(marks, i, opening) ==> !Closes(opening, marks[k])
    decreases |marks| - i
  {
    if i < |marks| && !Closes(opening, marks[i]) { NoCloserBefore(marks, i + 1, opening); }
  }

  ghost predicate FenceHolds(marks: seq<Option<Mark>>, f: Fence, i: nat) {
    && i <= f.from < f.to < |marks| && marks[f.from].Some? && Closes(marks[f.from].value, marks[f.to])
    && (forall j :: f.from < j < f.to ==> !Closes(marks[f.from].value, marks[j]))
  }

  ghost predicate InSequence(fences: seq<Fence>) {
    forall k, l :: 0 <= k < l < |fences| ==> fences[k].to < fences[l].from
  }

  lemma FirstFenceHolds(marks: seq<Option<Mark>>, i: nat)
    requires i <= |marks| && Fences(marks, i) != []
    ensures FenceHolds(marks, Fences(marks, i)[0], i)
    ensures Fences(marks, i)[1..] == Fences(marks, Fences(marks, i)[0].to + 1)
  {
    var start := NextMark(marks, i);
    NoCloserBefore(marks, start + 1, marks[start].value);
  }

  /** Every fence runs from a mark to the first line that closes it, and fences
      follow one another. */
  lemma {:induction false} FencesAreClosed(marks: seq<Option<Mark>>, i: nat)
    requires i <= |marks|
    ensures forall f :: f in Fences(marks, i) ==> FenceHolds(marks, f, i)
    ensures InSequence(Fences(marks, i))
    decreases |marks| - i
  {
    var fences := Fences(marks, i);
    if fences != [] {
      FirstFenceHolds(marks, i);
      FencesAreClosed(marks, fences[0].to + 1);
      Prepend(marks, i, fences[0], fences[1..]);
      assert fences == [fences[0]] + fences[1..];
    }
  }

  lemma Prepend(marks: seq<Option<Mark>>, i: nat, first: Fence, rest: seq<Fence>)
    requires FenceHolds(marks, first, i) && InSequence(rest)
    requires forall f :: f in rest ==> FenceHolds(marks, f, first.to + 1)
    ensures InSequence([first] + rest) && forall f :: f in [first] + rest ==> FenceHolds(marks, f, i)
  {
    forall l | 0 <= l < |rest| ensures first.to < rest[l].from {
      assert rest[l] in rest;
    }
  }

  // ----- The documented rule for fences -----

  /** The closed fences when an opening that nothing closes is passed over. */
  function Tolerant(marks: seq<Option<Mark>>, i: nat): seq<Fence>
    requires i <= |marks|
    decreases |marks| - i
  {
    var start := NextMark(marks, i);
    if start == |marks| then []
    else
      var closed := NextCloser(marks, start + 1, marks[start].value);
      if closed == |marks| then Tolerant(marks, start + 1) else [Fence(start, closed)] + Tolerant(marks, closed + 1)
  }

  /** The opening the search stops at, or the number of lines. */
  function FirstUnclosed(marks: seq<Option<Mark>>, i: nat): (j: nat)
    requires i <= |marks|
    ensures i <= j <= |marks|
    decreases |marks| - i
  {
    var start := NextMark(marks, i);
    if start == |marks| then start
    else
      var closed := NextCloser(marks, start + 1, marks[start].value);
      if closed == |marks| then start else FirstUnclosed(marks, closed + 1)
  }

  /** Line `k` holds a mark that a later line closes. */
  predicate Opens(marks: seq<Option<Mark>>, k: nat) {
    k < |marks| && marks[k].Some? && NextCloser(marks, k + 1, marks[k].value) < |marks|
  }

  ghost function Beyond(marks: seq<Option<Mark>>, stop: nat): seq<Fence>
    requires stop <= |marks|
  {
    if stop == |marks| then [] else Tolerant(marks, stop + 1)
  }

  lemma TolerantStep(marks: seq<Option<Mark>>, i: nat, f: Fence)
    requires i <= |marks| && Fences(marks, i) != [] && f == Fences(marks, i)[0]
    ensures f.to < |marks| && Tolerant(marks, i) == [f] + Tolerant(marks, f.to + 1)
    ensures Fences(marks, i) == [f] + Fences(marks, f.to + 1) && FirstUnclosed(marks, i) == FirstUnclosed(marks, f.to + 1)
  {
  }

  lemma TolerantStops(marks: seq<Option<Mark>>, i: nat)
    requires i <= |marks| && Fences(marks, i) == []
    ensures Tolerant(marks, i) == Beyond(marks, FirstUnclosed(marks, i))
  {
  }

  lemma Prefixed<T>(first: T, middle: seq<T>, rest: seq<T>)
    ensures [first] + (middle + rest) == ([first] + middle) + rest
  {
  }

  /** What the search gives up is what the rule finds behind its last line. */
  lemma {:induction false} TolerantContinues(marks: seq<Option<Mark>>, i: nat)
    requires i <= |marks|
    ensures Tolerant(marks, i) == Fences(marks, i) + Beyond(marks, FirstUnclosed(marks, i))
    decreases |marks| - i
  {
    if Fences(marks, i) != [] {
      var f := Fences(marks, i)[0];
      TolerantStep(marks, i, f);
      TolerantContinues(marks, f.to + 1);
      Prefixed(f, Fences(marks, f.to + 1), Beyond(marks, FirstUnclosed(marks, f.to + 1)));
    } else {
      TolerantStops(marks, i);
    }
  }

  lemma {:induction false} FencesEndBefore(marks: seq<Option<Mark>>, i: nat)
    requires i <= |marks|
    ensures forall f :: f in Fences(marks, i) ==> f.to < FirstUnclosed(marks, i)
    decreases |marks| - i
  {
    var fences := Fences(marks, i);
    if fences != [] {
      FencesEndBefore(marks, fences[0].to + 1);
      assert fences == [fences[0]] + Fences(marks, fences[0].to + 1);
    }
  }

  lemma {:induction false} NoMarkBefore(marks: seq<Option<Mark>>, i: nat)
    requires i <= |marks|
    ensures forall k :: i <= k < NextMark(marks, i) ==> marks[k].None?
    decreases |marks| - i
  {
    if i < |marks| && marks[i].None? { NoMarkBefore(marks, i + 1); }
  }

  lemma {:induction false} TolerantEmpty(marks: seq<Option<Mark>>, i: nat)
    requires i <= |marks|
    ensures Tolerant(marks, i) == [] <==> forall k :: i <= k ==> !Opens(marks, k)
    ensures Tolerant(marks, i) != [] ==> i <= Tolerant(marks, i)[0].from <= Tolerant(marks, i)[0].to
    decreases |marks| - i
  {
    var start := NextMark(marks, i);
    NoMarkBefore(marks, i);
    if start < |marks| && NextCloser(marks, start + 1, marks[start].value) == |marks| {
      TolerantEmpty(marks, start + 1);
    } else if start < |marks| {
      assert Opens(marks, start);
    }
  }

  lemma CoverGrows(done: seq<Fence>, rest: seq<Fence>, stop: nat)
    requires forall f :: f in done ==> f.to < stop
    requires rest != [] && stop < rest[0].from <= rest[0].to
    ensures Cover(done + rest) != Cover(done)
  {
    var f := rest[0];
    CoverMembers(done, f.from);
    CoverMembers(done + rest, f.from);
    assert (done + rest)[|done|] == f && f in done + rest;
    assert f.from in Cover(done + rest) && f.from !in Cover(done);
  }

  /** The documented rule, exactly: the scan covers the lines of every closed
      fence unless a mark behind the first unclosed opening opens one. */
  lemma FencedAsDocumentedExactly(lines: seq<string>)
    ensures var marks := Marks(lines);
      Fenced(lines) == Cover(Tolerant(marks, 0)) <==> forall k :: FirstUnclosed(marks, 0) < k ==> !Opens(marks, k)
  {
    FencedExactly(Marks(lines));
  }

  lemma FencedExactly(marks: seq<Option<Mark>>)
    ensures Cover(Fences(marks, 0)) == Cover(Tolerant(marks, 0)) <==> forall k :: FirstUnclosed(marks, 0) < k ==> !Opens(marks, k)
  {
    var stop := FirstUnclosed(marks, 0);
    TolerantContinues(marks, 0);
    var done, rest := Fences(marks, 0), Beyond(marks, stop);
    assert rest == [] ==> done + rest == done;
    if stop < |marks| {
      TolerantEmpty(marks, stop + 1);
      FencesEndBefore(marks, 0);
      if rest != [] { CoverGrows(done, rest, stop); }
    }
  }

  /** A stray mark that nothing closes ends the search: a closed fence behind it
      is not seen, and its `#` lines are read as headings. */
  lemma StrayMarkHidesFences()
    ensures var lines := ["~~~", "```", "## x", "```"];
      Fenced(lines) == {} && IsH2(lines[2]) && MarkOf(lines[1]).Some? && Closes(MarkOf(lines[1]).value, MarkOf(lines[3]))
  {
    var lines := ["~~~", "```", "## x", "```"];
    assert SkipSpace("~~~") == "~~~" && SkipSpace("```") == "```" && SkipSpace("## x") == "## x";
    assert Run("~~~", '~') == 3 by { assert "~~~"[1..] == "~~"; assert "~~"[1..] == "~"; assert Run("~", '~') == 1; }
    assert Run("```", '`') == 3 by { assert "```"[1..] == "``"; assert "``"[1..] == "`"; assert Run("`", '`') == 1; }
    assert Run("~~~", '`') == 0;
    var marks := Marks(lines);
    assert marks == [Some(Mark('~', 3)), Some(Mark('`', 3)), None, Some(Mark('`', 3))];
    assert NextCloser(marks, 1, Mark('~', 3)) == 4;
    assert Fences(marks, 0) == [];
  }

  // ----- Blocks -----

  /** The levels a block starts on: one hash or two, then whitespace. */
  function SplitLevel(line: string): nat {
    if IsH2(line) then 2 else if |line| >= 2 && line[0] == '#' && IsSpace(line[1]) then 1 else 0
  }

  datatype Head = Head(level: nat, heading: string)
  datatype Block = Block(head: Head, body: string)

  function HeadOf(line: string): Head
    requires SplitLevel(line) > 0
  {
    Head(SplitLevel(line), StripChars(IsSpace, line[SplitLevel(line)..]))
  }

  function CloseBlock(current: Option<Head>, body: seq<string>): seq<Block> {
    if current.None? then [] else [Block(current.value, StripChars(Newline, Join("\n", body)))]
  }

  predicate Splits(lines: seq<string>, fenced: set<nat>, i: nat)
    requires i < |lines|
  {
    i !in fenced && SplitLevel(lines[i]) > 0
  }

  function BlocksFrom(lines: seq<string>, fenced: set<nat>, i: nat, current: Option<Head>, body: seq<string>): seq<Block>
    requires i <= |lines|
    decreases |lines| - i
  {
    if i == |lines| then CloseBlock(current, body)
    else if Splits(lines, fenced, i) then CloseBlock(current, body) + BlocksFrom(lines, fenced, i + 1, Some(HeadOf(lines[i])), [])
    else BlocksFrom(lines, fenced, i + 1, current, if current.Some? then body + [lines[i]] else body)
  }

  function Blocks(text: string): seq<Block> {
    BlocksFrom(Lines(text), Fenced(Lines(text)), 0, None, [])
  }

  /** `_blocks`. */
  method SplitBlocks(text: string) returns (blocks: seq<Block>)
    ensures blocks == Blocks(text)
  {
    var lines := Lines(text);
    var fenced := FencedLineNumbers(lines);
    blocks := [];
    var current: Option<Head> := None;
    var body := [];
    for index := 0 to |lines|
      invariant blocks + BlocksFrom(lines, fenced, index, current, body) == Blocks(text)
    {
      BlocksStep(lines, fenced, index, current, body, blocks);
      if Splits(lines, fenced, index) {
        blocks := blocks + CloseBlock(current, body);
        current, body := Some(HeadOf(lines[index])), [];
      } else if current.Some? {
        body := body + [lines[index]];
      }
    }
    blocks := blocks + CloseBlock(current, body);
  }

  lemma BlocksStep(lines: seq<string>, fenced: set<nat>, i: nat, current: Option<Head>, body: seq<string>, done: seq<Block>)
    requires i < |lines|
    ensures done + BlocksFrom(lines, fenced, i, current, body) ==
      if Splits(lines, fenced, i) then (done + CloseBlock(current, body)) + BlocksFrom(lines, fenced, i + 1, Some(HeadOf(lines[i])), [])
      else done + BlocksFrom(lines, fenced, i + 1, current, if current.Some? then body + [lines[i]] else body)
  {
    if Splits(lines, fenced, i) {
      var more := BlocksFrom(lines, fenced, i + 1, Some(HeadOf(lines[i])), []);
      assert done + (CloseBlock(current, body) + more) == (done + CloseBlock(current, body)) + more;
    }
  }

  // ----- What the lines of a text may be -----

  ghost predicate AllLines(allowed: string -> bool, text: string) {
    forall line :: line in Lines(text) ==> allowed(line)
  }

  lemma {:induction false} LinesHaveNoBreak(text: string)
    ensures forall line :: line in Lines(text) ==> '\n' !in line
    ensures forall line, c :: line in Lines(text) && c in line ==> c in text
  {
    if text != "" { LinesHaveNoBreak(text[1..]); }
  }

  lemma {:induction false} NoReturnInLines(text: string)
    requires forall line :: line in Lines(text) ==> '\r' !in line
    ensures '\r' !in text
  {
    if text != "" {
      var rest := Lines(text[1..]);
      assert Lines(text)[0] in Lines(text);
      forall line | line in rest ensures '\r' !in line {
        if text[0] != '\n' && line == rest[0] {
          assert Lines(text)[0] == [text[0]] + rest[0];
          assert forall c :: c in rest[0] ==> c in Lines(text)[0];
        } else {
          assert line in Lines(text);
        }
      }
      NoReturnInLines(text[1..]);
      assert text == [text[0]] + text[1..];
    }
  }

  lemma {:induction false} LinesJoin(lines: seq<string>)
    requires lines != [] && forall line :: line in lines ==> '\n' !in line
    ensures Lines(Join("\n", lines)) == lines
  {
    OneLine(lines[0]);
    if |lines| > 1 {
      LinesAppend(lines[0], Join("\n", lines[1..]));
      LinesJoin(lines[1..]);
    }
  }

  lemma {:induction false} AllowedStripLeft(allowed: string -> bool, text: string)
    requires AllLines(allowed, text)
    ensures AllLines(allowed, StripLeft(Newline, text))
  {
    if text != "" && text[0] == '\n' {
      assert forall line :: line in Lines(text[1..]) ==> line in Lines(text);
      AllowedStripLeft(allowed, text[1..]);
    }
  }

  lemma {:induction false} AllowedStripRight(allowed: string -> bool, text: string)
    requires AllLines(allowed, text)
    ensures AllLines(allowed, StripRight(Newline, text))
  {
    if text != "" && text[|text| - 1] == '\n' {
      var front := text[..|text| - 1];
      assert text == front + "\n" + "";
      LinesAppend(front, "");
      AllowedStripRight(allowed, front);
    }
  }

  lemma AllowedBody(allowed: string -> bool, body: seq<string>)
    requires allowed("") && forall line :: line in body ==> allowed(line) && '\n' !in line
    ensures AllLines(allowed, StripChars(Newline, Join("\n", body)))
  {
    if body == [] {
      assert AllLines(allowed, Join("\n", body));
    } else {
      LinesJoin(body);
    }
    AllowedStripLeft(allowed, Join("\n", body));
    AllowedStripRight(allowed, StripLeft(Newline, Join("\n", body)));
  }

  lemma AllowedConcat(allowed: string -> bool, a: string, b: string)
    requires allowed("") && AllLines(allowed, a) && AllLines(allowed, b)
    ensures AllLines(allowed, a + "\n\n" + b)
  {
    assert a + "\n\n" + b == a + "\n" + ("" + "\n" + b);
    LinesAppend(a, "" + "\n" + b);
    LinesAppend("", b);
  }

  // ----- What blocks hold -----

  ghost predicate GoodHead(h: Head) {
    '\n' !in h.heading && '\r' !in h.heading && StripChars(IsSpace, h.heading) == h.heading
  }

  ghost predicate GoodBlock(allowed: string -> bool, b: Block) {
    GoodHead(b.head) && AllLines(allowed, b.body)
  }

  /** Body lines are fenced lines or lines that split nothing. */
  ghost predicate Allows(allowed: string -> bool, lines: seq<string>, fenced: set<nat>) {
    allowed("") && forall i :: 0 <= i < |lines| && !Splits(lines, fenced, i) ==> allowed(lines[i])
  }

  lemma {:induction false} StripIdempotent(text: string)
    ensures StripChars(IsSpace, StripChars(IsSpace, text)) == StripChars(IsSpace, text)
    ensures forall c :: c in StripChars(IsSpace, text) ==> c in text
  {
    var left := StripLeft(IsSpace, text);
    StripLeftEnds(text);
    StripRightEnds(left);
  }

  lemma {:induction false} StripLeftEnds(text: string)
    ensures var r := StripLeft(IsSpace, text); (r != "" ==> !IsSpace(r[0])) && forall c :: c in r ==> c in text
  {
    if text != "" && IsSpace(text[0]) { StripLeftEnds(text[1..]); }
  }

  lemma {:induction false} StripRightEnds(text: string)
    requires text != "" ==> !IsSpace(text[0])
    ensures var r := StripRight(IsSpace, text);
      (r != "" ==> !IsSpace(r[0]) && !IsSpace(r[|r| - 1])) && forall c :: c in r ==> c in text
  {
    if text != "" && IsSpace(text[|text| - 1]) { StripRightEnds(text[..|text| - 1]); }
  }

  lemma {:induction false} BlocksAreGood(allowed: string -> bool, lines: seq<string>, fenced: set<nat>, i: nat,
                                         current: Option<Head>, body: seq<string>)
    requires i <= |lines| && Allows(allowed, lines, fenced)
    requires forall line :: line in lines ==> '\n' !in line && '\r' !in line
    requires current.Some? ==> GoodHead(current.value)
    requires forall line :: line in body ==> allowed(line) && '\n' !in line
    ensures forall b :: b in BlocksFrom(lines, fenced, i, current, body) ==> GoodBlock(allowed, b)
    decreases |lines| - i
  {
    AllowedBody(allowed, body);
    if i < |lines| {
      if Splits(lines, fenced, i) {
        var rest := lines[i][SplitLevel(lines[i])..];
        StripIdempotent(rest);
        assert lines[i] in lines && forall c :: c in rest ==> c in lines[i];
        BlocksAreGood(allowed, lines, fenced, i + 1, Some(HeadOf(lines[i])), []);
      } else {
        BlocksAreGood(allowed, lines, fenced, i + 1, current, if current.Some? then body + [lines[i]] else body);
      }
    }
  }

  // ----- Sections -----

  function Position(sections: seq<Section>, heading: string): (i: nat)
    ensures i <= |sections| && (i < |sections| ==> sections[i].heading == heading)
    ensures forall j :: 0 <= j < i ==> sections[j].heading != heading
  {
    if sections == [] || sections[0].heading == heading then 0 else 1 + Position(sections[1..], heading)
  }

  /** A duplicated heading appends to its first occurrence. */
  function Put(sections: seq<Section>, heading: string, body: string): seq<Section> {
    var i := Position(sections, heading);
    if i < |sections| then sections[i := Section(heading, sections[i].text + "\n\n" + body)]
    else sections + [Section(heading, body)]
  }

  function SectionsOf(blocks: seq<Block>): seq<Section> {
    if blocks == [] then []
    else
      var front, last := SectionsOf(blocks[..|blocks| - 1]), blocks[|blocks| - 1];
      if last.head.level == 2 then Put(front, last.head.heading, last.body) else front
  }

  /** `_h2_sections`. */
  method H2Sections(text: string) returns (sections: seq<Section>)
    ensures sections == SectionsOf(Blocks(text))
  {
    var blocks := SplitBlocks(text);
    sections := [];
    for i := 0 to |blocks|
      invariant sections == SectionsOf(blocks[..i])
    {
      if blocks[i].head.level == 2 {
        sections := Put(sections, blocks[i].head.heading, blocks[i].body);
      }
      assert blocks[..i + 1][..i] == blocks[..i];
    }
    assert blocks[..|blocks|] == blocks;
  }

  predicate DistinctHeadings(sections: seq<Section>) {
    forall i, j :: 0 <= i < j < |sections| ==> sections[i].heading != sections[j].heading
  }

  ghost predicate GoodSection(allowed: string -> bool, s: Section) {
    WellPrinted(s) && '\r' !in s.heading && AllLines(allowed, s.text)
  }

  lemma {:induction false} SectionsAreGood(allowed: string -> bool, blocks: seq<Block>)
    requires allowed("") && forall b :: b in blocks ==> GoodBlock(allowed, b)
    ensures DistinctHeadings(SectionsOf(blocks)) && forall s :: s in SectionsOf(blocks) ==> GoodSection(allowed, s)
  {
    if blocks != [] {
      var front, last := blocks[..|blocks| - 1], blocks[|blocks| - 1];
      SectionsAreGood(allowed, front);
      assert last in blocks && GoodBlock(allowed, last);
      var sections := SectionsOf(front);
      var i := Position(sections, last.head.heading);
      if last.head.level == 2 && i < |sections| {
        assert GoodSection(allowed, sections[i]);
        AllowedConcat(allowed, sections[i].text, last.body);
      }
    }
  }

  /** Sections of a file: distinct headings on one line each, and body lines that
      are fenced or no heading of level one or two. */
  lemma FileSections(allowed: string -> bool, text: string)
    requires Allows(allowed, Lines(text), Fenced(Lines(text))) && '\r' !in text
    ensures DistinctHeadings(SectionsOf(Blocks(text)))
    ensures forall s :: s in SectionsOf(Blocks(text)) ==> GoodSection(allowed, s)
  {
    LinesHaveNoBreak(text);
    BlocksAreGood(allowed, Lines(text), Fenced(Lines(text)), 0, None, []);
    SectionsAreGood(allowed, Blocks(text));
  }

  // ----- Residue -----

  datatype Source = Source(section: Section, fromRationale: bool)

  predicate Usable(isStub: string -> bool, sections: seq<Section>, heading: string) {
    var i := Position(sections, heading);
    i < |sections| && !Blank(sections[i].text) && !isStub(sections[i].text)
  }

  /** The text of a heading: `rationale.md` first, then `index.md`. */
  function PickSource(isStub: string -> bool, index: seq<Section>, rationale: seq<Section>, heading: string): Option<Source> {
    if Usable(isStub, rationale, heading) then Some(Source(rationale[Position(rationale, heading)], true))
    else if Usable(isStub, index, heading) then Some(Source(index[Position(index, heading)], false))
    else None
  }

  function Headings(sections: seq<Section>): seq<string> {
    seq(|sections|, i requires 0 <= i < |sections| => sections[i].heading)
  }

  /** The retained sections for a list of headings, each heading once. */
  function Residue(isStub: string -> bool, index: seq<Section>, rationale: seq<Section>, consumed: set<string>, headings: seq<string>)
    : seq<Source>
  {
    if headings == [] then []
    else
      var front := headings[..|headings| - 1];
      var heading := headings[|headings| - 1];
      var done := Residue(isStub, index, rationale, consumed, front);
      var picked := PickSource(isStub, index, rationale, heading);
      if heading in consumed || heading in front || picked.None? then done else done + [picked.value]
  }

  function SectionsIn(sources: seq<Source>): (sections: seq<Section>)
    ensures |sections| == |sources|
  {
    seq(|sources|, i requires 0 <= i < |sources| => sources[i].section)
  }

  /** The headings already printed, among those looked at. */
  ghost predicate Seen(isStub: string -> bool, index: seq<Section>, rationale: seq<Section>, consumed: set<string>,
                       headings: seq<string>, seen: set<string>)
  {
    forall h :: h in seen <==> h in headings && h !in consumed && PickSource(isStub, index, rationale, h).Some?
  }

  lemma ResidueNext(isStub: string -> bool, index: seq<Section>, rationale: seq<Section>, consumed: set<string>,
                    headings: seq<string>, i: nat, seen: set<string>)
    requires i < |headings| && Seen(isStub, index, rationale, consumed, headings[..i], seen)
    ensures var fits := headings[i] !in consumed && headings[i] !in seen;
      var picked := PickSource(isStub, index, rationale, headings[i]);
      var done := Residue(isStub, index, rationale, consumed, headings[..i]);
      && Residue(isStub, index, rationale, consumed, headings[..i + 1]) == (if fits && picked.Some? then done + [picked.value] else done)
      && Seen(isStub, index, rationale, consumed, headings[..i + 1], if fits && picked.Some? then seen + {headings[i]} else seen)
  {
    assert headings[..i + 1][..i] == headings[..i] && headings[..i + 1] == headings[..i] + [headings[i]];
  }

  /** `_residue_body_sections`. */
  method ResidueBodySections(isStub: string -> bool, index: seq<Section>, rationale: seq<Section>, consumed: set<string>)
    returns (body: string, sources: seq<Source>)
    ensures sources == Residue(isStub, index, rationale, consumed, Headings(index) + Headings(rationale))
    ensures body == Print(SectionsIn(sources))
  {
    var headings := Headings(index) + Headings(rationale);
    var parts, seen := [], {};
    sources := [];
    for i := 0 to |headings|
      invariant sources == Residue(isStub, index, rationale, consumed, headings[..i])
      invariant Seen(isStub, index, rationale, consumed, headings[..i], seen)
      invariant parts == Printed(sources)
    {
      var heading := headings[i];
      ResidueNext(isStub, index, rationale, consumed, headings, i, seen);
      if heading !in consumed && heading !in seen {
        var picked := PickSource(isStub, index, rationale, heading);
        if picked.Some? {
          PrintedNext(sources, picked.value);
          parts := parts + [PrintSection(picked.value.section)];
          sources := sources + [picked.value];
          seen := seen + {heading};
        }
      }
    }
    assert headings[..|headings|] == headings;
    body := Join("\n\n", parts);
    JoinPrints(sources);
  }

  function Printed(sources: seq<Source>): seq<string> {
    seq(|sources|, i requires 0 <= i < |sources| => PrintSection(sources[i].section))
  }

  lemma PrintedNext(sources: seq<Source>, x: Source)
    ensures Printed(sources + [x]) == Printed(sources) + [PrintSection(x.section)]
  {}

  lemma {:induction false} JoinPrints(sources: seq<Source>)
    ensures Join("\n\n", Printed(sources)) == Print(SectionsIn(sources))
  {
    if |sources| > 1 {
      JoinPrints(sources[1..]);
      assert Printed(sources)[1..] == Printed(sources[1..]);
      assert SectionsIn(sources)[1..] == SectionsIn(sources[1..]);
    }
  }

  /** A heading is retained exactly when a file has it, nothing consumed it, and
      some file has text for it; once, and from `rationale.md` when it can be. */
  lemma {:induction false} ResidueExactly(isStub: string -> bool, index: seq<Section>, rationale: seq<Section>,
                                          consumed: set<string>, headings: seq<string>, heading: string)
    ensures var r := Residue(isStub, index, rationale, consumed, headings);
      && (heading in Headings(SectionsIn(r)) <==>
            heading in headings && heading !in consumed && PickSource(isStub, index, rationale, heading).Some?)
      && (forall x :: x in r ==> PickSource(isStub, index, rationale, x.section.heading) == Some(x))
  {
    if headings != [] {
      var front, last := headings[..|headings| - 1], headings[|headings| - 1];
      ResidueExactly(isStub, index, rationale, consumed, front, heading);
      ResidueExactly(isStub, index, rationale, consumed, front, last);
      assert headings == front + [last];
      var r, done := Residue(isStub, index, rationale, consumed, headings), Residue(isStub, index, rationale, consumed, front);
      if |r| == |done| + 1 {
        assert Headings(SectionsIn(r)) == Headings(SectionsIn(done)) + [last];
      }
    }
  }

  lemma {:induction false} ResidueOnce(isStub: string -> bool, index: seq<Section>, rationale: seq<Section>,
                                       consumed: set<string>, headings: seq<string>)
    ensures DistinctHeadings(SectionsIn(Residue(isStub, index, rationale, consumed, headings)))
  {
    if headings != [] {
      var front, last := headings[..|headings| - 1], headings[|headings| - 1];
      var done := Residue(isStub, index, rationale, consumed, front);
      ResidueOnce(isStub, index, rationale, consumed, front);
      ResidueExactly(isStub, index, rationale, consumed, front, last);
      NewHeadingDistinct(SectionsIn(done), Residue(isStub, index, rationale, consumed, headings), last);
    }
  }

  lemma NewHeadingDistinct(done: seq<Section>, sources: seq<Source>, heading: string)
    requires DistinctHeadings(done)
    requires SectionsIn(sources) == done
      || (heading !in Headings(done) && |sources| == |done| + 1
          && SectionsIn(sources) == done + [sources[|done|].section] && sources[|done|].section.heading == heading)
    ensures DistinctHeadings(SectionsIn(sources))
  {
    assert forall k :: 0 <= k < |done| ==> Headings(done)[k] == done[k].heading;
  }

  // ----- From files to body units -----

  /** No line inside a closed fence looks like an H2 heading. */
  ghost predicate QuietFences(text: string) {
    forall i :: i in Fenced(Lines(text)) && i < |Lines(text)| ==> !IsH2(Lines(text)[i])
  }

  predicate QuietLine(line: string) {
    !IsH2(line) && '\r' !in line
  }

  lemma QuietSections(text: string)
    requires QuietFences(text) && '\r' !in text
    ensures forall s :: s in SectionsOf(Blocks(text)) ==> GoodSection(QuietLine, s)
  {
    LinesHaveNoBreak(text);
    FileSections(QuietLine, text);
  }

  lemma {:induction false} CleanPrint(allowed: string -> bool, sections: seq<Section>)
    requires forall line :: allowed(line) ==> '\r' !in line
    requires forall s :: s in sections ==> GoodSection(allowed, s)
    ensures '\r' !in Print(sections)
  {
    if sections != [] {
      assert sections[0] in sections;
      NoReturnInLines(sections[0].text);
      CleanPrint(allowed, sections[1..]);
    }
  }

  /** The sections the adapter prints from the text of two files. */
  function ResidueOf(isStub: string -> bool, index: string, rationale: string, consumed: set<string>): seq<Section> {
    var a, b := SectionsOf(Blocks(LineFeeds(index))), SectionsOf(Blocks(LineFeeds(rationale)));
    SectionsIn(Residue(isStub, a, b, consumed, Headings(a) + Headings(b)))
  }

  /** Every retained section is one of the two files' sections, as it stands. */
  lemma ResidueFromFiles(isStub: string -> bool, index: seq<Section>, rationale: seq<Section>, consumed: set<string>, headings: seq<string>)
    ensures forall s :: s in SectionsIn(Residue(isStub, index, rationale, consumed, headings)) ==> s in index || s in rationale
  {
    var r := Residue(isStub, index, rationale, consumed, headings);
    ResidueExactly(isStub, index, rationale, consumed, headings, "");
    forall s | s in SectionsIn(r) ensures s in index || s in rationale {
      var k :| 0 <= k < |r| && r[k].section == s;
      assert r[k] in r;
    }
  }

  lemma ResidueIsQuiet(isStub: string -> bool, index: string, rationale: string, consumed: set<string>)
    requires QuietFences(LineFeeds(index)) && QuietFences(LineFeeds(rationale))
    ensures forall s :: s in ResidueOf(isStub, index, rationale, consumed) ==> GoodSection(QuietLine, s)
  {
    var a, b := SectionsOf(Blocks(LineFeeds(index))), SectionsOf(Blocks(LineFeeds(rationale)));
    LineFeedsIdempotent(index);
    LineFeedsIdempotent(rationale);
    QuietSections(LineFeeds(index));
    QuietSections(LineFeeds(rationale));
    ResidueFromFiles(isStub, a, b, consumed, Headings(a) + Headings(b));
  }
}
