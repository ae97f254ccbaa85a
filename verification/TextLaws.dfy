/** What the string functions of `Text` mean, each by a property that no other
    result has. */
module TextLaws {
  import opened Text

  ghost predicate AllDrop(drop: char -> bool, text: string) {
    forall c :: c in text ==> drop(c)
  }

  // ----- str.strip -----

  /** `core` is the text without its outer run of dropped characters. */
  ghost predicate IsCore(drop: char -> bool, text: string, core: string) {
    exists left, right :: CoreBetween(drop, text, left, core, right)
  }

  ghost predicate CoreBetween(drop: char -> bool, text: string, left: string, core: string, right: string) {
    && text == left + core + right && AllDrop(drop, left) && AllDrop(drop, right)
    && (core != "" ==> !drop(core[0]) && !drop(core[|core| - 1]))
  }

  lemma {:induction false} StripLeftSplits(drop: char -> bool, text: string) returns (left: string)
    ensures text == left + StripLeft(drop, text) && AllDrop(drop, left)
    ensures StripLeft(drop, text) != "" ==> !drop(StripLeft(drop, text)[0])
  {
    left := "";
    if text != "" && drop(text[0]) {
      left := StripLeftSplits(drop, text[1..]);
      left := [text[0]] + left;
    }
  }

  lemma {:induction false} StripRightSplits(drop: char -> bool, text: string) returns (right: string)
    ensures text == StripRight(drop, text) + right && AllDrop(drop, right)
    ensures StripRight(drop, text) != "" ==> !drop(StripRight(drop, text)[|StripRight(drop, text)| - 1])
    ensures StripRight(drop, text) != "" ==> StripRight(drop, text)[0] == text[0]
  {
    right := "";
    if text != "" && drop(text[|text| - 1]) {
      right := StripRightSplits(drop, text[..|text| - 1]);
      right := right + [text[|text| - 1]];
    }
  }

  lemma StripIsCore(drop: char -> bool, text: string)
    ensures IsCore(drop, text, StripChars(drop, text))
  {
    var left := StripLeftSplits(drop, text);
    var right := StripRightSplits(drop, StripLeft(drop, text));
    assert CoreBetween(drop, text, left, StripChars(drop, text), right);
  }

  lemma {:induction false} StripLeftPast(drop: char -> bool, left: string, rest: string)
    requires AllDrop(drop, left)
    ensures StripLeft(drop, left + rest) == StripLeft(drop, rest)
  {
    if left == "" {
      assert left + rest == rest;
    } else {
      assert (left + rest)[1..] == left[1..] + rest;
      StripLeftPast(drop, left[1..], rest);
    }
  }

  lemma {:induction false} StripRightPast(drop: char -> bool, rest: string, right: string)
    requires AllDrop(drop, right)
    ensures StripRight(drop, rest + right) == StripRight(drop, rest)
  {
    if right == "" {
      assert rest + right == rest;
    } else {
      var front := right[..|right| - 1];
      assert (rest + right)[..|rest + right| - 1] == rest + front;
      StripRightPast(drop, rest, front);
    }
  }

  /** Stripping finds the core, and there is no other. */
  lemma StripIsTheCore(drop: char -> bool, text: string, core: string)
    ensures IsCore(drop, text, core) <==> core == StripChars(drop, text)
  {
    StripIsCore(drop, text);
    if IsCore(drop, text, core) {
      var left, right :| CoreBetween(drop, text, left, core, right);
      assert text == left + (core + right);
      StripLeftPast(drop, left, core + right);
      if core == "" {
        assert core + right == right && right + "" == right;
        StripLeftPast(drop, right, "");
      } else {
        StripRightPast(drop, core, right);
      }
    }
  }

  lemma StripsToNothing(drop: char -> bool, text: string)
    ensures StripChars(drop, text) == "" <==> AllDrop(drop, text)
  {
    StripIsTheCore(drop, text, "");
    if AllDrop(drop, text) {
      assert text == text + "" + "";
      assert CoreBetween(drop, text, text, "", "");
    }
  }

  // ----- str.split -----

  /** Words and the gaps around them, in turn. */
  ghost function Weave(gaps: seq<string>, words: seq<string>): string
    requires |gaps| == |words| + 1
    decreases |words|
  {
    if words == [] then gaps[0] else gaps[0] + (words[0] + Weave(gaps[1..], words[1..]))
  }

  ghost predicate IsWord(word: string) {
    word != "" && forall i :: 0 <= i < |word| ==> !IsSpace(word[i])
  }

  /** Words hold no whitespace, gaps nothing else, and a gap parts two words. */
  ghost predicate Parted(gaps: seq<string>, words: seq<string>) {
    && |gaps| == |words| + 1
    && (forall i :: 0 <= i < |words| ==> IsWord(words[i]))
    && (forall i :: 0 <= i < |gaps| ==> AllDrop(IsSpace, gaps[i]))
    && (forall i :: 0 < i < |words| ==> gaps[i] != "")
  }

  ghost predicate AreWords(text: string, words: seq<string>) {
    exists gaps :: Parted(gaps, words) && text == Weave(gaps, words)
  }

  lemma {:induction false} WordsPast(gap: string, rest: string)
    requires AllDrop(IsSpace, gap)
    ensures Words(gap + rest) == Words(rest)
  {
    if gap == "" {
      assert gap + rest == rest;
    } else {
      assert (gap + rest)[1..] == gap[1..] + rest;
      WordsPast(gap[1..], rest);
    }
  }

  lemma {:induction false} WordLengthOf(word: string, rest: string)
    requires (forall i :: 0 <= i < |word| ==> !IsSpace(word[i])) && (rest == "" || IsSpace(rest[0]))
    ensures WordLength(word + rest) == |word|
  {
    if word == "" {
      assert word + rest == rest;
    } else {
      assert (word + rest)[1..] == word[1..] + rest;
      WordLengthOf(word[1..], rest);
    }
  }

  lemma FirstWord(word: string, rest: string)
    requires IsWord(word) && (rest == "" || IsSpace(rest[0]))
    ensures Words(word + rest) == [word] + Words(rest)
  {
    var text := word + rest;
    var n := WordLength(text);
    WordLengthOf(word, rest);
    assert text[..n] == word && text[n..] == rest;
  }

  lemma PartedBehind(gaps: seq<string>, words: seq<string>)
    requires Parted(gaps, words) && words != []
    ensures Parted(gaps[1..], words[1..]) && (|words| > 1 ==> gaps[1] != "")
  {
    var g, w := gaps[1..], words[1..];
    assert forall i :: 0 <= i < |w| ==> w[i] == words[i + 1];
    assert forall i :: 0 <= i < |g| ==> g[i] == gaps[i + 1];
  }

  lemma GapOpens(gaps: seq<string>, words: seq<string>)
    requires Parted(gaps, words) && (words != [] ==> gaps[0] != "")
    ensures Weave(gaps, words) == "" || IsSpace(Weave(gaps, words)[0])
  {
    assert AllDrop(IsSpace, gaps[0]);
    if gaps[0] != "" { assert gaps[0][0] in gaps[0]; }
  }

  lemma {:induction false} PartedAreWords(gaps: seq<string>, words: seq<string>)
    requires Parted(gaps, words)
    ensures Words(Weave(gaps, words)) == words
    decreases |words|
  {
    if words == [] {
      WordsPast(gaps[0], "");
      assert gaps[0] + "" == gaps[0];
    } else {
      PartedBehind(gaps, words);
      GapOpens(gaps[1..], words[1..]);
      PartedAreWords(gaps[1..], words[1..]);
      FirstWord(words[0], Weave(gaps[1..], words[1..]));
      WordsPast(gaps[0], words[0] + Weave(gaps[1..], words[1..]));
    }
  }

  lemma {:induction false} WordsAreParted(text: string) returns (gaps: seq<string>)
    ensures Parted(gaps, Words(text)) && text == Weave(gaps, Words(text))
    decreases |text|
  {
    if text == "" {
      gaps := [""];
    } else if IsSpace(text[0]) {
      var behind := WordsAreParted(text[1..]);
      gaps := [[text[0]] + behind[0]] + behind[1..];
      WidenGap(text[0], behind, Words(text[1..]));
    } else {
      var n := WordLength(text);
      var behind := WordsAreParted(text[n..]);
      gaps := [""] + behind;
      GapBehind(text[n..], behind, Words(text[n..]));
      WordBefore(text[..n], behind, Words(text[n..]));
    }
  }

  /** Text that does not open with a word has whitespace before its first word. */
  lemma GapBehind(text: string, gaps: seq<string>, words: seq<string>)
    requires Parted(gaps, words) && text == Weave(gaps, words) && (text == "" || IsSpace(text[0]))
    ensures words != [] ==> gaps[0] != ""
  {
    if words != [] {
      assert IsWord(words[0]);
      assert gaps[0] == "" ==> text == words[0] + Weave(gaps[1..], words[1..]);
    }
  }

  lemma WordBefore(word: string, gaps: seq<string>, words: seq<string>)
    requires IsWord(word) && Parted(gaps, words) && (words != [] ==> gaps[0] != "")
    ensures Parted([""] + gaps, [word] + words) && Weave([""] + gaps, [word] + words) == word + Weave(gaps, words)
  {
    var g, w := [""] + gaps, [word] + words;
    assert g[1..] == gaps && w[1..] == words;
    assert forall i :: 0 < i < |g| ==> g[i] == gaps[i - 1];
    assert forall i :: 0 < i < |w| ==> w[i] == words[i - 1];
  }

  lemma WidenGap(c: char, gaps: seq<string>, words: seq<string>)
    requires Parted(gaps, words) && IsSpace(c)
    ensures var wider := [[c] + gaps[0]] + gaps[1..];
      Parted(wider, words) && Weave(wider, words) == [c] + Weave(gaps, words)
  {
    var wider := [[c] + gaps[0]] + gaps[1..];
    assert wider[1..] == gaps[1..];
    assert forall i :: 0 < i < |gaps| ==> wider[i] == gaps[i];
    assert AllDrop(IsSpace, gaps[0]);
  }

  /** Splitting finds the words, and there are no others. */
  lemma SplitIsTheWords(text: string, words: seq<string>)
    ensures AreWords(text, words) <==> words == Words(text)
  {
    var gaps := WordsAreParted(text);
    if AreWords(text, words) {
      var other :| Parted(other, words) && text == Weave(other, words);
      PartedAreWords(other, words);
    }
  }

  // ----- The rest -----

  /** `needle in haystack`: the haystack has the needle between two parts. */
  lemma ContainsExactly(haystack: string, needle: string)
    ensures Contains(haystack, needle) <==> exists before, behind :: haystack == before + needle + behind
  {
    if Contains(haystack, needle) {
      var i :| 0 <= i <= |haystack| && needle <= haystack[i..];
      assert haystack == haystack[..i] + needle + haystack[i..][|needle|..];
    }
    if before, behind :| haystack == before + needle + behind {
      assert needle <= haystack[|before|..];
    }
  }

  /** Each of the three line ends becomes one newline, all else stays. */
  lemma LineFeedsAt(before: string, rest: string)
    requires '\r' !in before
    ensures LineFeeds(before) == before
    ensures LineFeeds(before + ("\r\n" + rest)) == before + ("\n" + LineFeeds(rest))
    ensures rest == "" || rest[0] != '\n' ==> LineFeeds(before + ("\r" + rest)) == before + ("\n" + LineFeeds(rest))
  {
    LineFeedsKeeps(before, "");
    assert before + "" == before;
    LineFeedsKeeps(before, "\r\n" + rest);
    LineFeedsKeeps(before, "\r" + rest);
    PairOpens(rest);
    ReturnOpens(rest);
  }

  lemma PairOpens(rest: string)
    ensures LineFeeds("\r\n" + rest) == "\n" + LineFeeds(rest)
  {
    assert ("\r\n" + rest)[2..] == rest;
  }

  lemma ReturnOpens(rest: string)
    ensures rest == "" || rest[0] != '\n' ==> LineFeeds("\r" + rest) == "\n" + LineFeeds(rest)
  {
    var text := "\r" + rest;
    assert text[1..] == rest && (|text| > 1 ==> text[1] == rest[0]);
  }

  // ----- Line ends are whitespace to `str.split` -----

  lemma {:induction false} LineFeedsOpen(text: string)
    ensures text == "" || IsSpace(text[0]) ==> LineFeeds(text) == "" || IsSpace(LineFeeds(text)[0])
  {
  }

  lemma {:induction false} WordsOfLineFeeds(text: string)
    ensures Words(LineFeeds(text)) == Words(text)
    decreases |text|
  {
    if text == "" {
    } else if text[0] == '\r' && |text| > 1 && text[1] == '\n' {
      WordsOfLineFeeds(text[2..]);
      assert text == "\r\n" + text[2..];
      WordsPast("\r\n", text[2..]);
      WordsPast("\n", LineFeeds(text[2..]));
    } else if IsSpace(text[0]) {
      WordsOfLineFeeds(text[1..]);
      var head := if text[0] == '\r' then "\n" else [text[0]];
      WordsPast(head, LineFeeds(text[1..]));
    } else {
      var n := WordLength(text);
      var word, rest := text[..n], text[n..];
      WordsOfLineFeeds(rest);
      assert '\r' !in word by { assert forall c :: c in word ==> !IsSpace(c); }
      LineFeedsKeeps(word, rest);
      assert text == word + rest;
      LineFeedsOpen(rest);
      FirstWord(word, LineFeeds(rest));
    }
  }

  /** Words joined by single spaces are the words of the joined text. */
  lemma {:induction false} WordsOfJoin(words: seq<string>)
    requires forall i :: 0 <= i < |words| ==> IsWord(words[i])
    ensures Words(Join(" ", words)) == words
  {
    if |words| == 1 {
      FirstWord(words[0], "");
      assert words[0] + "" == words[0] && [words[0]] + Words("") == words;
    } else if |words| > 1 {
      var rest := Join(" ", words[1..]);
      WordsOfJoin(words[1..]);
      FirstWord(words[0], " " + rest);
      WordsPast(" ", rest);
      assert words[0] + (" " + rest) == Join(" ", words);
      assert words == [words[0]] + words[1..];
    }
  }
}
