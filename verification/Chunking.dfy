/** Paragraphs, sentences and greedy packing of `application/chunking.py`. */
module Chunking {
  import opened Text
  import opened Grouping

  predicate LineBlank(c: char) { c == ' ' || c == '\t' }
  predicate ParagraphBlank(c: char) { LineBlank(c) || c == '\n' }

  lemma BlanksAreSpaces()
    ensures forall c :: LineBlank(c) ==> IsSpace(c)
    ensures forall c :: ParagraphBlank(c) ==> IsSpace(c)
  {
  }

  // ----- Paragraphs: a split on runs of blank lines -----

  /** Past the spaces and tabs from `i` on. */
  function SkipBlanks(text: string, i: nat): (j: nat)
    requires i <= |text|
    ensures i <= j <= |text| && forall k :: i <= k < j ==> LineBlank(text[k])
    decreases |text| - i
  {
    if i < |text| && LineBlank(text[i]) then SkipBlanks(text, i + 1) else i
  }

  /** Past any further blank lines from the start of a line on. */
  function MoreBlankLines(text: string, i: nat): (j: nat)
    requires i <= |text|
    ensures i <= j <= |text| && forall k :: i <= k < j ==> ParagraphBlank(text[k])
    decreases |text| - i
  {
    var k := SkipBlanks(text, i);
    if k < |text| && text[k] == '\n' then MoreBlankLines(text, k + 1) else i
  }

  /** The end of a blank line run that starts with the newline at `i`, or `i`. */
  function BlankRun(text: string, i: nat): (j: nat)
    requires i < |text|
    ensures i <= j <= |text| && forall k :: i <= k < j ==> ParagraphBlank(text[k])
  {
    if text[i] != '\n' then i
    else
      var k := SkipBlanks(text, i + 1);
      if k < |text| && text[k] == '\n' then MoreBlankLines(text, k + 1) else i
  }

  /** The leftmost blank line run from `i` on, or the end of the text. */
  function NextRun(text: string, i: nat): (j: nat)
    requires i <= |text|
    ensures i <= j <= |text| && (j < |text| ==> BlankRun(text, j) > j)
    decreases |text| - i
  {
    if i == |text| || BlankRun(text, i) > i then i else NextRun(text, i + 1)
  }

  function SplitRuns(text: string): seq<string>
    decreases |text|
  {
    var i := NextRun(text, 0);
    if i == |text| then [text] else [text[..i]] + SplitRuns(text[BlankRun(text, i)..])
  }

  function KeepNonBlank(parts: seq<string>): seq<string> {
    if parts == [] then []
    else (if StripChars(ParagraphBlank, parts[0]) == "" then [] else [parts[0]]) + KeepNonBlank(parts[1..])
  }

  function Paragraphs(text: string): seq<string> {
    var stripped := StripChars(ParagraphBlank, LineFeeds(text));
    if stripped == "" then [] else KeepNonBlank(SplitRuns(stripped))
  }

  lemma SolidGap(before: string, gap: string, after: string)
    requires forall c :: c in gap ==> IsSpace(c)
    ensures Solid(before + gap + after) == Solid(before) + Solid(after)
  {
    SolidBlank(gap);
    SolidConcat(before + gap, after);
    SolidConcat(before, gap);
  }

  lemma {:induction false} SplitRunsKeeps(text: string)
    ensures SolidAll(SplitRuns(text)) == Solid(text)
    decreases |text|
  {
    var i := NextRun(text, 0);
    if i == |text| {
      assert [text][1..] == [];
    } else {
      var j := BlankRun(text, i);
      var rest := text[j..];
      SolidGap(text[..i], text[i..j], rest);
      assert text == text[..i] + text[i..j] + rest;
      SplitRunsKeeps(rest);
      assert ([text[..i]] + SplitRuns(rest))[1..] == SplitRuns(rest);
    }
  }

  lemma {:induction false} KeepNonBlankKeeps(parts: seq<string>)
    ensures SolidAll(KeepNonBlank(parts)) == SolidAll(parts)
  {
    if parts != [] {
      KeepNonBlankKeeps(parts[1..]);
      BlanksAreSpaces();
      SolidStrip(ParagraphBlank, parts[0]);
      if StripChars(ParagraphBlank, parts[0]) != "" {
        assert ([parts[0]] + KeepNonBlank(parts[1..]))[1..] == KeepNonBlank(parts[1..]);
      } else {
        assert [] + KeepNonBlank(parts[1..]) == KeepNonBlank(parts[1..]);
      }
    }
  }

  /** Splitting into paragraphs keeps every character that is not whitespace. */
  lemma ParagraphsKeep(text: string)
    ensures SolidAll(Paragraphs(text)) == Solid(text)
  {
    var lines := LineFeeds(text);
    var stripped := StripChars(ParagraphBlank, lines);
    SolidLineFeeds(text);
    BlanksAreSpaces();
    SolidStrip(ParagraphBlank, lines);
    if stripped != "" {
      SplitRunsKeeps(stripped);
      KeepNonBlankKeeps(SplitRuns(stripped));
    }
  }

  // ----- Sentences -----

  predicate Terminator(c: char) { c == '.' || c == '!' || c == '?' }

  predicate Closing(c: char) {
    c == '\'' || c == '\"' || c == '\U{2019}' || c == '\U{201D}' || c == ')' || c == '}' || c == ']'
  }

  function SkipClosing(text: string, i: nat): (j: nat)
    requires i <= |text|
    ensures i <= j <= |text|
    decreases |text| - i
  {
    if i < |text| && Closing(text[i]) then SkipClosing(text, i + 1) else i
  }

  function SkipSpaces(text: string, i: nat): (j: nat)
    requires i <= |text|
    ensures i <= j <= |text|
    decreases |text| - i
  {
    if i < |text| && IsSpace(text[i]) then SkipSpaces(text, i + 1) else i
  }

  /** The sentence end pattern matches at `i`: a terminator, closing characters,
      then whitespace or the end. */
  predicate EndsAt(text: string, i: nat)
    requires i < |text|
  {
    Terminator(text[i]) && var k := SkipClosing(text, i + 1); k == |text| || IsSpace(text[k])
  }

  function MatchEnd(text: string, i: nat): (j: nat)
    requires i < |text|
    ensures i < SkipClosing(text, i + 1) <= j <= |text|
  {
    SkipSpaces(text, SkipClosing(text, i + 1))
  }

  /** The next match of the pattern from `i` on, or the end of the text. */
  function NextEnd(text: string, i: nat): (j: nat)
    requires i <= |text|
    ensures i <= j <= |text| && (j < |text| ==> EndsAt(text, j))
    decreases |text| - i
  {
    if i == |text| || EndsAt(text, i) then i else NextEnd(text, i + 1)
  }

  function Piece(text: string): seq<string> {
    var stripped := StripChars(IsSpace, text);
    if stripped == "" then [] else [stripped]
  }

  /** The sentences from a cut at `position`, matching on from `from`. Each cut
      falls at the terminator itself. */
  function SentencesFrom(text: string, position: nat, from: nat): seq<string>
    requires position <= from <= |text|
    decreases |text| - from
  {
    var end := NextEnd(text, from);
    if end == |text| then Piece(text[position..])
    else Piece(text[position..end]) + SentencesFrom(text, end, MatchEnd(text, end))
  }

  function Sentences(text: string): seq<string> {
    SentencesFrom(text, 0, 0)
  }

  lemma SentencesUnfold(text: string, position: nat, from: nat, end: nat)
    requires position <= from <= |text| && end == NextEnd(text, from) < |text|
    ensures SentencesFrom(text, position, from) == Piece(text[position..end]) + SentencesFrom(text, end, MatchEnd(text, end))
  {
  }

  /** `_split_sentences` with its inner scans, which start on the terminator and
      so never move. */
  method SplitSentences(text: string) returns (sentences: seq<string>)
    ensures sentences == Sentences(text)
  {
    sentences := [];
    var position, from := 0, 0;
    while true
      invariant position <= from <= |text|
      invariant sentences + SentencesFrom(text, position, from) == Sentences(text)
      decreases |text| - from
    {
      var terminator := NextEnd(text, from);
      if terminator == |text| {
        break;
      }
      var end := CutPoint(text, terminator);
      SentencesUnfold(text, position, from, end);
      sentences := sentences + Piece(text[position..end]);
      position, from := end, MatchEnd(text, terminator);
    }
    sentences := sentences + Piece(text[position..]);
  }

  /** The scans past closing characters and spaces, from the terminator on. */
  method CutPoint(text: string, terminator: nat) returns (end: nat)
    requires terminator < |text| && Terminator(text[terminator])
    ensures end == terminator
  {
    end := terminator;
    while end < |text| && Closing(text[end])
      invariant terminator <= end <= |text| && (end > terminator ==> Closing(text[terminator]))
    {
      end := end + 1;
    }
    if MatchEnd(text, terminator) > SkipClosing(text, terminator + 1) {
      while end < |text| && IsSpace(text[end])
        invariant terminator <= end <= |text| && (end > terminator ==> IsSpace(text[terminator]))
      {
        end := end + 1;
      }
    }
  }

  lemma PieceKeeps(text: string)
    ensures SolidAll(Piece(text)) == Solid(text)
  {
    SolidStrip(IsSpace, text);
    var stripped := StripChars(IsSpace, text);
    if stripped != "" { assert [stripped][1..] == []; }
  }

  lemma {:induction false} SentencesFromKeep(text: string, position: nat, from: nat)
    requires position <= from <= |text|
    ensures SolidAll(SentencesFrom(text, position, from)) == Solid(text[position..])
    decreases |text| - from
  {
    var end := NextEnd(text, from);
    if end == |text| {
      PieceKeeps(text[position..]);
    } else {
      PieceKeeps(text[position..end]);
      SentencesFromKeep(text, end, MatchEnd(text, end));
      SolidAllConcat(Piece(text[position..end]), SentencesFrom(text, end, MatchEnd(text, end)));
      assert text[position..] == text[position..end] + text[end..];
      SolidConcat(text[position..end], text[end..]);
    }
  }

  /** Splitting into sentences keeps every character that is not whitespace. */
  lemma SentencesKeep(text: string)
    ensures SolidAll(Sentences(text)) == Solid(text)
  {
    SentencesFromKeep(text, 0, 0);
    assert text[0..] == text;
  }

  /** No sentence is blank, so a paragraph with content has a sentence. */
  lemma {:induction false} SentencesNonBlank(text: string, position: nat, from: nat)
    requires position <= from <= |text|
    ensures forall s :: s in SentencesFrom(text, position, from) ==> s != ""
    decreases |text| - from
  {
    var end := NextEnd(text, from);
    if end < |text| { SentencesNonBlank(text, end, MatchEnd(text, end)); }
  }

  /** Every cut leaves the terminator at the head of the next sentence. */
  lemma {:induction false} LaterSentencesOpenWithTerminator(text: string, position: nat, from: nat)
    requires position <= from <= |text|
    requires position < |text| && Terminator(text[position])
    ensures forall s :: s in SentencesFrom(text, position, from) ==> s != "" && Terminator(s[0])
    ensures SentencesFrom(text, position, from) != []
    decreases |text| - from
  {
    var end := NextEnd(text, from);
    PieceOpens(text[position..]);
    if end < |text| {
      if position < end { PieceOpens(text[position..end]); }
      LaterSentencesOpenWithTerminator(text, end, MatchEnd(text, end));
    }
  }

  lemma PieceOpens(text: string)
    requires text != "" && Terminator(text[0])
    ensures |Piece(text)| == 1 && Piece(text)[0] != "" && Terminator(Piece(text)[0][0])
  {
    StripRightKeepsHead(IsSpace, text);
  }

  lemma {:induction false} StripRightKeepsHead(drop: char -> bool, text: string)
    requires text != "" && !drop(text[0])
    ensures StripRight(drop, text) != "" && StripRight(drop, text)[0] == text[0]
  {
    if drop(text[|text| - 1]) { StripRightKeepsHead(drop, text[..|text| - 1]); }
  }

  // ----- Greedy packing -----

  /** The chunks one packing loop emits: an oversize piece is expanded, a closed
      run is joined. */
  function Emit(count: Counter, sep: string, target: nat, expand: string -> seq<string>, open: seq<string>, xs: seq<string>)
    : seq<string>
    decreases |xs|
  {
    if xs == [] then Close(sep, open)
    else if count(xs[0]) > target then Close(sep, open) + expand(xs[0]) + Emit(count, sep, target, expand, [], xs[1..])
    else if count(Join(sep, open + [xs[0]])) <= target then Emit(count, sep, target, expand, open + [xs[0]], xs[1..])
    else Close(sep, open) + Emit(count, sep, target, expand, [xs[0]], xs[1..])
  }

  function Close(sep: string, open: seq<string>): seq<string> {
    if open == [] then [] else [Join(sep, open)]
  }

  function Alone(): string -> seq<string> {
    (piece: string) => [piece]
  }

  function PackSentences(count: Counter, target: nat, paragraph: string): seq<string> {
    var sentences := Sentences(paragraph);
    if sentences == [] then [paragraph] else Emit(count, " ", target, Alone(), [], sentences)
  }

  function SentencesOf(count: Counter, target: nat): string -> seq<string> {
    (paragraph: string) => PackSentences(count, target, paragraph)
  }

  function PackParagraphs(count: Counter, target: nat, paragraphs: seq<string>): seq<string> {
    Emit(count, "\n\n", target, SentencesOf(count, target), [], paragraphs)
  }

  /** `_pack_oversize_paragraph`. */
  method PackOversizeParagraph(count: Counter, target: nat, paragraph: string) returns (chunks: seq<string>)
    ensures chunks == PackSentences(count, target, paragraph)
  {
    var sentences := SplitSentences(paragraph);
    if sentences == [] {
      return [paragraph];
    }
    chunks := [];
    var current := [];
    ghost var rest := sentences;
    for i := 0 to |sentences|
      invariant rest == sentences[i..]
      invariant chunks + Emit(count, " ", target, Alone(), current, rest) == Emit(count, " ", target, Alone(), [], sentences)
    {
      var sentence := sentences[i];
      EmitStep(count, " ", target, Alone(), current, rest, chunks);
      rest := rest[1..];
      if count(sentence) > target {
        if current != [] {
          chunks := chunks + [Join(" ", current)];
          current := [];
        }
        chunks := chunks + [sentence];
        continue;
      }
      var candidate := current + [sentence];
      if count(Join(" ", candidate)) <= target {
        current := candidate;
      } else {
        if current != [] {
          chunks := chunks + [Join(" ", current)];
        }
        current := [sentence];
      }
    }
    if current != [] {
      chunks := chunks + [Join(" ", current)];
    }
  }

  /** One step of the packing loop, after the chunks already emitted. */
  lemma EmitStep(count: Counter, sep: string, target: nat, expand: string -> seq<string>,
                 open: seq<string>, xs: seq<string>, done: seq<string>)
    requires xs != []
    ensures var closed := if open == [] then done else done + [Join(sep, open)];
      done + Emit(count, sep, target, expand, open, xs) ==
        if count(xs[0]) > target then closed + expand(xs[0]) + Emit(count, sep, target, expand, [], xs[1..])
        else if count(Join(sep, open + [xs[0]])) <= target then done + Emit(count, sep, target, expand, open + [xs[0]], xs[1..])
        else closed + Emit(count, sep, target, expand, [xs[0]], xs[1..])
  {
    var closed := Close(sep, open);
    if count(xs[0]) > target {
      Associate(done, closed, expand(xs[0]), Emit(count, sep, target, expand, [], xs[1..]));
    } else if count(Join(sep, open + [xs[0]])) > target {
      Associate(done, closed, [], Emit(count, sep, target, expand, [xs[0]], xs[1..]));
    }
  }

  lemma Associate<T>(a: seq<T>, b: seq<T>, c: seq<T>, d: seq<T>)
    ensures a + (b + c + d) == a + b + c + d
    ensures a + (b + d) == a + b + d
    ensures a + [] == a
  {
  }

  /** `_pack_paragraphs`. */
  method RunPackParagraphs(count: Counter, target: nat, paragraphs: seq<string>) returns (chunks: seq<string>)
    ensures chunks == PackParagraphs(count, target, paragraphs)
  {
    chunks := [];
    var current := [];
    ghost var expand, rest := SentencesOf(count, target), paragraphs;
    for i := 0 to |paragraphs|
      invariant rest == paragraphs[i..]
      invariant chunks + Emit(count, "\n\n", target, expand, current, rest) == PackParagraphs(count, target, paragraphs)
    {
      var paragraph := paragraphs[i];
      EmitStep(count, "\n\n", target, expand, current, rest, chunks);
      rest := rest[1..];
      if count(paragraph) > target {
        if current != [] {
          chunks := chunks + [Join("\n\n", current)];
          current := [];
        }
        var pieces := PackOversizeParagraph(count, target, paragraph);
        assert pieces == expand(paragraph);
        chunks := chunks + pieces;
        continue;
      }
      var candidate := current + [paragraph];
      if count(Join("\n\n", candidate)) <= target {
        current := candidate;
      } else {
        if current != [] {
          chunks := chunks + [Join("\n\n", current)];
        }
        current := [paragraph];
      }
    }
    if current != [] {
      chunks := chunks + [Join("\n\n", current)];
    }
  }

  // ----- Packing conserves content -----

  lemma CloseKeeps(sep: string, open: seq<string>)
    requires Solid(sep) == ""
    ensures SolidAll(Close(sep, open)) == SolidAll(open)
  {
    if open != [] {
      SolidJoin(sep, open);
      assert [Join(sep, open)][1..] == [];
    }
  }

  lemma SolidAllThree(a: seq<string>, b: seq<string>, c: seq<string>)
    ensures SolidAll(a + b + c) == SolidAll(a) + SolidAll(b) + SolidAll(c)
    ensures SolidAll(a + c) == SolidAll(a) + SolidAll(c)
  {
    SolidAllConcat(a + b, c);
    SolidAllConcat(a, b);
    SolidAllConcat(a, c);
  }

  /** What the three branches of a step keep. */
  lemma ExpandedKeeps(closed: seq<string>, pieces: seq<string>, later: seq<string>, open: seq<string>, x: string, rest: seq<string>)
    requires SolidAll(closed) == SolidAll(open) && SolidAll(pieces) == Solid(x) && SolidAll(later) == SolidAll(rest)
    ensures SolidAll(closed + pieces + later) == SolidAll(open) + (Solid(x) + SolidAll(rest))
  {
    SolidAllThree(closed, pieces, later);
  }

  lemma JoinedKeeps(open: seq<string>, x: string, rest: seq<string>)
    ensures SolidAll(open + [x]) + SolidAll(rest) == SolidAll(open) + (Solid(x) + SolidAll(rest))
  {
    SolidAllConcat(open, [x]);
    SolidAllOne(x);
  }

  lemma ClosedKeeps(closed: seq<string>, later: seq<string>, open: seq<string>, x: string, rest: seq<string>)
    requires SolidAll(closed) == SolidAll(open) && SolidAll(later) == SolidAll([x]) + SolidAll(rest)
    ensures SolidAll(closed + later) == SolidAll(open) + (Solid(x) + SolidAll(rest))
  {
    SolidAllConcat(closed, later);
    SolidAllOne(x);
  }

  lemma {:induction false} EmitKeeps(count: Counter, sep: string, target: nat, expand: string -> seq<string>,
                                     open: seq<string>, xs: seq<string>)
    requires Solid(sep) == "" && forall x :: SolidAll(expand(x)) == Solid(x)
    ensures SolidAll(Emit(count, sep, target, expand, open, xs)) == SolidAll(open) + SolidAll(xs)
    decreases |xs|
  {
    CloseKeeps(sep, open);
    if xs != [] {
      var x, rest, closed := xs[0], xs[1..], Close(sep, open);
      if count(x) > target {
        EmitKeeps(count, sep, target, expand, [], rest);
        ExpandedKeeps(closed, expand(x), Emit(count, sep, target, expand, [], rest), open, x, rest);
      } else if count(Join(sep, open + [x])) <= target {
        EmitKeeps(count, sep, target, expand, open + [x], rest);
        JoinedKeeps(open, x, rest);
      } else {
        EmitKeeps(count, sep, target, expand, [x], rest);
        ClosedKeeps(closed, Emit(count, sep, target, expand, [x], rest), open, x, rest);
      }
    }
  }

  lemma SolidAllOne(x: string)
    ensures SolidAll([x]) == Solid(x)
  {
    assert [x][1..] == [];
  }

  lemma PackSentencesKeeps(count: Counter, target: nat, paragraph: string)
    ensures SolidAll(PackSentences(count, target, paragraph)) == Solid(paragraph)
  {
    var sentences := Sentences(paragraph);
    SentencesKeep(paragraph);
    SolidAllOne(paragraph);
    if sentences != [] {
      forall x ensures SolidAll(Alone()(x)) == Solid(x) { SolidAllOne(x); }
      SeparatorsAreBlank();
      EmitKeeps(count, " ", target, Alone(), [], sentences);
    }
  }

  lemma SeparatorsAreBlank()
    ensures Solid(" ") == "" && Solid("\n\n") == ""
  {
    SolidBlank(" ");
    SolidBlank("\n\n");
  }

  /** From the unit text to its chunks no character that is not whitespace is
      lost, duplicated or reordered, for any token counter. */
  lemma ChunkingConserves(count: Counter, target: nat, text: string)
    ensures SolidAll(PackParagraphs(count, target, Paragraphs(text))) == Solid(text)
  {
    ParagraphsKeep(text);
    SeparatorsAreBlank();
    forall x ensures SolidAll(SentencesOf(count, target)(x)) == Solid(x) { PackSentencesKeeps(count, target, x); }
    EmitKeeps(count, "\n\n", target, SentencesOf(count, target), [], Paragraphs(text));
  }
}
