/** What the decomposition guard says of texts: tokens are the words without
    their edge punctuation, and a valid response neither invents nor omits. */
module GuardText {
  import opened Text
  import opened TextLaws
  import opened Guard

  // ----- Normalization and tokens -----

  /** Two texts have one normal form exactly when they have the same words. */
  lemma NormalizeKeepsWords(fold: string -> string, text: string)
    ensures Words(Normalize(fold, text)) == Words(fold(text))
  {
    WordsOfLineFeeds(fold(text));
    var words := Words(LineFeeds(fold(text)));
    forall i | 0 <= i < |words| ensures IsWord(words[i]) {
      assert words[i] in words;
    }
    WordsOfJoin(words);
  }

  lemma SameNormalExactly(fold: string -> string, a: string, b: string)
    ensures Normalize(fold, a) == Normalize(fold, b) <==> Words(fold(a)) == Words(fold(b))
  {
    NormalizeKeepsWords(fold, a);
    NormalizeKeepsWords(fold, b);
    WordsOfLineFeeds(fold(a));
    WordsOfLineFeeds(fold(b));
  }

  /** Stops, quotes and brackets are edge punctuation; letters, digits, hyphens and
      underscores are not. */
  lemma EdgeCharacters(c: char)
    ensures c in {'.', ',', ';', ':', '!', '?', '\"', '\'', '(', ')', '[', ']', '{', '}', '<', '>'} ==> EdgePunctuation(c)
    ensures 'a' <= c <= 'z' || 'A' <= c <= 'Z' || '0' <= c <= '9' || c == '-' || c == '_' ==> !EdgePunctuation(c)
  {
    var edges := ".,;:!?\"'()[]{}<>";
    assert edges[0] == '.' && edges[1] == ',' && edges[2] == ';' && edges[3] == ':' && edges[4] == '!' && edges[5] == '?';
    assert edges[6] == '\"' && edges[7] == '\'' && edges[8] == '(' && edges[9] == ')' && edges[10] == '[' && edges[11] == ']';
    assert edges[12] == '{' && edges[13] == '}' && edges[14] == '<' && edges[15] == '>';
  }

  /** Each word's core, in word order. */
  ghost predicate AreCores(words: seq<string>, cores: seq<string>) {
    |cores| == |words| && forall i :: 0 <= i < |words| ==> IsCore(EdgePunctuation, words[i], cores[i])
  }

  /** `tokens` are the nonempty cores, in order and with repeats. */
  ghost predicate AreNonEmpty(cores: seq<string>, tokens: seq<string>, places: seq<nat>) {
    && |places| == |tokens|
    && (forall j :: 0 <= j < |places| ==> places[j] < |cores| && tokens[j] == cores[places[j]])
    && (forall i, j :: 0 <= i < j < |places| ==> places[i] < places[j])
    && (forall i :: 0 <= i < |cores| ==> (cores[i] != "" <==> i in places))
  }

  ghost function CoresOf(words: seq<string>): seq<string> {
    seq(|words|, i requires 0 <= i < |words| => StripChars(EdgePunctuation, words[i]))
  }

  ghost function CorePlaces(words: seq<string>): seq<nat> {
    if words == [] then []
    else
      CorePlaces(words[..|words| - 1])
      + if StripChars(EdgePunctuation, words[|words| - 1]) == "" then [] else [|words| - 1]
  }

  lemma CoresAre(words: seq<string>)
    ensures AreCores(words, CoresOf(words))
  {
    forall i | 0 <= i < |words| ensures IsCore(EdgePunctuation, words[i], CoresOf(words)[i]) {
      StripIsTheCore(EdgePunctuation, words[i], CoresOf(words)[i]);
    }
  }

  lemma CoresGrow(front: seq<string>, last: string)
    ensures CoresOf(front + [last]) == CoresOf(front) + [StripChars(EdgePunctuation, last)]
  {
  }

  lemma {:induction false} KeptCores(words: seq<string>)
    ensures AreNonEmpty(CoresOf(words), KeepNonEmpty(words), CorePlaces(words))
  {
    if words != [] {
      var front, last := words[..|words| - 1], words[|words| - 1];
      var core := StripChars(EdgePunctuation, last);
      KeptCores(front);
      CoresGrow(front, last);
      assert words == front + [last];
      if core == "" {
        EmptyNext(CoresOf(front), KeepNonEmpty(front), CorePlaces(front));
      } else {
        NonEmptyNext(CoresOf(front), KeepNonEmpty(front), CorePlaces(front), core);
      }
    }
  }

  lemma EmptyNext(cores: seq<string>, tokens: seq<string>, places: seq<nat>)
    requires AreNonEmpty(cores, tokens, places)
    ensures AreNonEmpty(cores + [""], tokens + [], places + [])
  {
    assert tokens + [] == tokens && places + [] == places;
    assert forall i :: 0 <= i < |cores| ==> (cores + [""])[i] == cores[i];
    assert forall p :: p in places ==> p < |cores|;
  }

  lemma NonEmptyNext(cores: seq<string>, tokens: seq<string>, places: seq<nat>, core: string)
    requires AreNonEmpty(cores, tokens, places) && core != ""
    ensures AreNonEmpty(cores + [core], tokens + [core], places + [|cores|])
  {
    var all, next := cores + [core], places + [|cores|];
    assert forall i :: 0 <= i < |cores| ==> all[i] == cores[i];
    assert forall p :: p in next <==> p in places || p == |cores|;
    assert forall p :: p in places ==> p < |cores|;
  }

  /** The tokens of a text are the nonempty cores of its words, in order. */
  lemma TokensAreCores(fold: string -> string, text: string)
    ensures exists words, cores, places ::
      AreWords(fold(text), words) && AreCores(words, cores) && AreNonEmpty(cores, SentenceTokens(fold, text), places)
  {
    NormalizeKeepsWords(fold, text);
    var words := Words(fold(text));
    SplitIsTheWords(fold(text), words);
    KeptCores(words);
    CoresAre(words);
    assert AreWords(fold(text), words) && AreCores(words, CoresOf(words))
           && AreNonEmpty(CoresOf(words), SentenceTokens(fold, text), CorePlaces(words));
  }

  /** Some word of the text has this core. */
  ghost predicate HasCore(text: string, core: string) {
    core != "" && exists word :: word in Words(text) && IsCore(EdgePunctuation, word, core)
  }

  lemma TokenIsCore(fold: string -> string, text: string, token: string)
    ensures token in SentenceTokens(fold, text) <==> HasCore(fold(text), token)
  {
    NormalizeKeepsWords(fold, text);
    var words := Words(fold(text));
    var cores, places := CoresOf(words), CorePlaces(words);
    KeptCores(words);
    CoresAre(words);
    var tokens := KeepNonEmpty(words);
    if token in tokens {
      var j :| 0 <= j < |tokens| && tokens[j] == token;
      assert places[j] in places && words[places[j]] in words && IsCore(EdgePunctuation, words[places[j]], token);
    }
    if HasCore(fold(text), token) {
      var word :| word in words && IsCore(EdgePunctuation, word, token);
      var i :| 0 <= i < |words| && words[i] == word;
      StripIsTheCore(EdgePunctuation, word, token);
      StripIsTheCore(EdgePunctuation, word, cores[i]);
      var j :| 0 <= j < |places| && places[j] == i;
      assert tokens[j] == token;
    }
  }

  // ----- What a valid response may not do -----

  /** Equal, or related with neither a function word. */
  ghost predicate SameWord(v: Vocabulary, a: string, b: string) {
    a == b || (a !in v.functionWords && b !in v.functionWords && v.related(a, b))
  }

  /** A valid response has no word whose core is content and is the same word as
      no core of the parent: nothing is invented. */
  lemma NothingInvented(v: Vocabulary, fold: string -> string, texts: seq<string>, parent: string, k: nat, core: string)
    requires Classify(v, fold, texts, parent).Valid?
    requires k < |texts| && HasCore(fold(texts[k]), core) && core !in v.functionWords
    ensures exists other :: HasCore(fold(parent), other) && SameWord(v, core, other)
  {
    var part, whole := SentenceTokens(fold, texts[k]), SentenceTokens(fold, parent);
    ValidExactly(v, fold, texts, parent);
    assert Parts(fold, texts)[k] in Parts(fold, texts);
    TokenIsCore(fold, texts[k], core);
    var i :| 0 <= i < |part| && part[i] == core;
    AcceptedIsBounded(v, part, whole);
    var f: seq<nat> :| ContentMatched(v, part, whole, f) && InjectiveOnContent(v, part, whole, f);
    TokenIsCore(fold, parent, whole[f[i]]);
    assert SameWord(v, core, whole[f[i]]);
  }

  /** And each demanded core of the parent, no function word and no connective, is
      the same word as a core of some part: nothing is omitted. */
  lemma NothingOmitted(v: Vocabulary, fold: string -> string, texts: seq<string>, parent: string, core: string)
    requires Classify(v, fold, texts, parent).Valid? && HasCore(fold(parent), core)
    requires core !in v.functionWords && core !in v.connectives
    ensures exists k, other :: 0 <= k < |texts| && HasCore(fold(texts[k]), other) && SameWord(v, core, other)
  {
    ValidExactly(v, fold, texts, parent);
    TokenIsCore(fold, parent, core);
    var parts := Parts(fold, texts);
    var part, other :| part in parts && other in part && TokensMatch(v, core, other);
    var k :| 0 <= k < |parts| && parts[k] == part;
    TokenIsCore(fold, texts[k], other);
    assert SameWord(v, core, other);
  }

  /** Claims repeat exactly when two of them have the same words. */
  lemma RepeatsExactly(fold: string -> string, texts: seq<string>)
    ensures Distinct(fold, texts) <==> forall i, j :: 0 <= i < j < |texts| ==> Words(fold(texts[i])) != Words(fold(texts[j]))
  {
    forall i, j | 0 <= i < j < |texts|
      ensures Normalize(fold, texts[i]) == Normalize(fold, texts[j]) <==> Words(fold(texts[i])) == Words(fold(texts[j]))
    {
      SameNormalExactly(fold, texts[i], texts[j]);
    }
  }

  // ----- Which verdict, and where it stops -----

  /** The verdict names the first rule that fails: the cap, repeats, the first
      part that adds, the first demanded token omitted. */
  lemma VerdictExactly(v: Vocabulary, fold: string -> string, texts: seq<string>, parent: string)
    ensures var verdict, parts, whole := Classify(v, fold, texts, parent), Parts(fold, texts), SentenceTokens(fold, parent);
      && (verdict.OverCap? <==> |texts| > MAX_SUB_CLAIMS)
      && (verdict.Duplicate? <==> |texts| <= MAX_SUB_CLAIMS && !Distinct(fold, texts))
      && (verdict.NotAdditive? ==> exists k ::
            && 0 <= k < |parts| && AdditiveStop(v, parts[k], whole) == Stop(verdict.category, verdict.token)
            && forall j :: 0 <= j < k ==> AdditiveStop(v, parts[j], whole).NoStop?)
      && (verdict.Incomplete? ==>
            && (forall part :: part in parts ==> AdditiveStop(v, part, whole).NoStop?)
            && exists i :: 0 <= i < |whole| && whole[i] == verdict.omitted && Omitted(v, parts, whole[i])
                           && forall j :: 0 <= j < i ==> !Omitted(v, parts, whole[j]))
  {
    var parts, whole := Parts(fold, texts), SentenceTokens(fold, parent);
    if Classify(v, fold, texts, parent).NotAdditive? {
      var k := StopIsFirst(v, parts, whole);
    }
    if Classify(v, fold, texts, parent).Incomplete? {
      var i := OmittedIsFirst(v, whole, parts);
    }
  }

  /** A demanded token that no token of any part matches. */
  ghost predicate Omitted(v: Vocabulary, parts: seq<seq<string>>, token: string) {
    token !in v.functionWords && token !in v.connectives && !SomePartMatches(v, parts, token)
  }

  lemma {:induction false} StopIsFirst(v: Vocabulary, parts: seq<seq<string>>, parent: seq<string>) returns (k: nat)
    requires FirstStop(v, parts, parent).Stop?
    ensures k < |parts| && FirstStop(v, parts, parent) == AdditiveStop(v, parts[k], parent)
    ensures forall j :: 0 <= j < k ==> AdditiveStop(v, parts[j], parent).NoStop?
  {
    k := 0;
    if AdditiveStop(v, parts[0], parent).NoStop? {
      k := StopIsFirst(v, parts[1..], parent);
      k := k + 1;
    }
  }

  lemma {:induction false} OmittedIsFirst(v: Vocabulary, parent: seq<string>, parts: seq<seq<string>>) returns (i: nat)
    requires FirstOmitted(v, parent, Flat(parts)) != []
    ensures i < |parent| && FirstOmitted(v, parent, Flat(parts)) == [parent[i]] && Omitted(v, parts, parent[i])
    ensures forall j :: 0 <= j < i ==> !Omitted(v, parts, parent[j])
  {
    forall r: string { FlatHas(parts, r); }
    i := 0;
    if v.Exempt(parent[0]) || exists r :: r in Flat(parts) && TokensMatch(v, parent[0], r) {
      i := OmittedIsFirst(v, parent[1..], parts);
      i := i + 1;
    }
  }

  /** A walk stops on the first token that makes the tokens up to it too many:
      content without a match, or one function word over the budget. */
  lemma {:induction false} WalkStopsFirst(v: Vocabulary, sub: seq<string>, parent: seq<string>, used: Pool, added: nat)
    returns (i: nat)
    requires |used| == |parent| && Walk(v, sub, parent, used, added).Stop?
    ensures i < |sub| && Walk(v, sub[..i], parent, used, added).NoStop?
    ensures Walk(v, sub, parent, used, added) == Walk(v, sub[..i + 1], parent, used, added)
         == Stop(if v.Content(sub[i]) then ContentToken else FunctionWordOverrun, sub[i])
    decreases |sub|
  {
    var p := FirstMatch(v, sub[0], parent, used, 0);
    i := 0;
    assert sub[..1][0] == sub[0];
    if p < |parent| {
      i := WalkStopsFirst(v, sub[1..], parent, used[p := true], added);
      i := i + 1;
    } else if !v.Content(sub[0]) && added + 1 <= MAX_ADDED_FUNCTION_WORDS {
      i := WalkStopsFirst(v, sub[1..], parent, used, added + 1);
      i := i + 1;
    }
    if i > 0 { assert sub[..i][1..] == sub[1..][..i - 1] && sub[..i + 1][1..] == sub[1..][..i]; }
  }
}
