/** The decomposition guard of `application/verification.py`: greedy token
    matching, the additive and completeness halves, and the verdict. */
module Guard {
  import opened Morphology
  import opened Text

  const MAX_SUB_CLAIMS: nat := 8
  const MAX_ADDED_FUNCTION_WORDS: nat := 2

  /** The two closed word sets and the stem relation. Every theorem about the
      guard holds for any choice of the three. */
  datatype Vocabulary = Vocabulary(
    functionWords: set<string>, connectives: set<string>, related: (string, string) -> bool)
  {
    predicate Content(token: string) { token !in functionWords }
    predicate Exempt(token: string) { token in functionWords || token in connectives }
  }

  /** The vocabulary the source ships. */
  const SHIPPED: Vocabulary := Vocabulary(
    {"a", "an", "the", "and", "that", "which", "is", "are", "was", "were", "be", "been",
     "being", "has", "have", "had", "do", "does", "did", "can", "could", "will", "would",
     "shall", "should", "may", "might", "must", "to", "of", "for", "with", "by", "as", "at",
     "on", "in", "from", "about", "so", "but", "or", "if", "because", "when", "then", "there",
     "it", "this", "these", "those", "their", "not", "no", "never", "nor"},
    {"yet", "albeit", "although", "lest", "though", "unless", "whereas", "whether", "while",
     "whilst", "accordingly", "additionally", "also", "anyway", "consequently", "conversely",
     "furthermore", "hence", "however", "indeed", "instead", "likewise", "meanwhile",
     "moreover", "namely", "nevertheless", "nonetheless", "otherwise", "rather", "regardless",
     "subsequently", "therefore", "thereby", "thus", "how", "whatever", "whenever", "where",
     "whereby", "wherein", "whereupon", "wherever", "whichever", "who", "whoever", "whom",
     "whose", "why"},
    BaseSetsIntersect)

  // ----- Normalization and tokens -----

  /** `fold` stands for NFKC followed by case folding. */
  function Normalize(fold: string -> string, text: string): string {
    Join(" ", Words(LineFeeds(fold(text))))
  }

  predicate EdgePunctuation(c: char) {
    c in ".,;:!?\"'()[]{}<>"
  }

  function KeepNonEmpty(words: seq<string>): seq<string> {
    if words == [] then []
    else
      var stripped := StripChars(EdgePunctuation, words[|words| - 1]);
      KeepNonEmpty(words[..|words| - 1]) + if stripped == "" then [] else [stripped]
  }

  function SentenceTokens(fold: string -> string, text: string): seq<string> {
    KeepNonEmpty(Words(Normalize(fold, text)))
  }

  /** `sentence_tokens` with its append loop. */
  method RunSentenceTokens(fold: string -> string, text: string) returns (tokens: seq<string>)
    ensures tokens == SentenceTokens(fold, text)
  {
    tokens := [];
    var words := Words(Normalize(fold, text));
    for i := 0 to |words|
      invariant tokens == KeepNonEmpty(words[..i])
    {
      assert words[..i + 1][..i] == words[..i];
      var stripped := StripChars(EdgePunctuation, words[i]);
      if stripped != "" {
        tokens := tokens + [stripped];
      }
    }
    assert words[..|words|] == words;
  }

  predicate TokensMatch(v: Vocabulary, a: string, b: string) {
    a == b || (v.Content(a) && v.Content(b) && v.related(a, b))
  }

  // ----- The additive half: greedy, in parent order, never backtracking -----

  type Pool = seq<bool>

  /** The first unused parent position the token matches, or `|parent|`. */
  function FirstMatch(v: Vocabulary, token: string, parent: seq<string>, used: Pool, from: nat): (p: nat)
    requires |used| == |parent| && from <= |parent|
    ensures from <= p <= |parent|
    ensures p < |parent| ==> !used[p] && TokensMatch(v, token, parent[p])
    ensures forall i :: from <= i < p ==> used[i] || !TokensMatch(v, token, parent[i])
    decreases |parent| - from
  {
    if from == |parent| then from
    else if !used[from] && TokensMatch(v, token, parent[from]) then from
    else FirstMatch(v, token, parent, used, from + 1)
  }

  datatype Category = ContentToken | FunctionWordOverrun
  datatype Stop = NoStop | Stop(category: Category, token: string)

  /** The greedy walk from one sub claim token on, over a partly used pool. */
  function Walk(v: Vocabulary, sub: seq<string>, parent: seq<string>, used: Pool, added: nat): Stop
    requires |used| == |parent|
    decreases |sub|
  {
    if sub == [] then NoStop
    else
      var p := FirstMatch(v, sub[0], parent, used, 0);
      if p < |parent| then Walk(v, sub[1..], parent, used[p := true], added)
      else if v.Content(sub[0]) then Stop(ContentToken, sub[0])
      else if added + 1 > MAX_ADDED_FUNCTION_WORDS then Stop(FunctionWordOverrun, sub[0])
      else Walk(v, sub[1..], parent, used, added + 1)
  }

  function Fresh(n: nat): Pool {
    seq(n, _ => false)
  }

  function AdditiveStop(v: Vocabulary, sub: seq<string>, parent: seq<string>): Stop {
    Walk(v, sub, parent, Fresh(|parent|), 0)
  }

  /** The inner loop: mark the first unused parent token that matches. */
  method TakeFirst(v: Vocabulary, token: string, parent: seq<string>, used: array<bool>) returns (matched: bool)
    requires used.Length == |parent|
    modifies used
    ensures var p := FirstMatch(v, token, parent, old(used[..]), 0);
      matched == (p < |parent|) && used[..] == if matched then old(used[..])[p := true] else old(used[..])
  {
    ghost var before := used[..];
    for index := 0 to |parent|
      invariant used[..] == before
      invariant FirstMatch(v, token, parent, before, index) == FirstMatch(v, token, parent, before, 0)
    {
      if !used[index] && TokensMatch(v, token, parent[index]) {
        used[index] := true;
        return true;
      }
    }
    return false;
  }

  /** `sub_claim_is_additive_free` with its loops and its `used` list. */
  method RunAdditive(v: Vocabulary, sub: seq<string>, parent: seq<string>) returns (stop: Stop)
    ensures stop == AdditiveStop(v, sub, parent)
  {
    var used := new bool[|parent|](_ => false);
    var added := 0;
    assert used[..] == Fresh(|parent|);
    assert sub[0..] == sub;
    for i := 0 to |sub|
      invariant added <= MAX_ADDED_FUNCTION_WORDS
      invariant Walk(v, sub[i..], parent, used[..], added) == AdditiveStop(v, sub, parent)
    {
      var token := sub[i];
      assert sub[i..][1..] == sub[i + 1..];
      var matched := TakeFirst(v, token, parent, used);
      if matched {
        continue;
      }
      if v.Content(token) {
        return Stop(ContentToken, token);
      }
      added := added + 1;
      if added > MAX_ADDED_FUNCTION_WORDS {
        return Stop(FunctionWordOverrun, token);
      }
    }
    return NoStop;
  }

  // ----- What the greedy walk leaves unmatched -----

  /** The whole greedy assignment, unmatched tokens included and nothing stopped:
      position `|parent|` marks a token without a match. */
  ghost function Assignment(v: Vocabulary, sub: seq<string>, parent: seq<string>, used: Pool): (f: seq<nat>)
    requires |used| == |parent|
    ensures |f| == |sub|
    decreases |sub|
  {
    if sub == [] then []
    else
      var p := FirstMatch(v, sub[0], parent, used, 0);
      [p] + Assignment(v, sub[1..], parent, if p < |parent| then used[p := true] else used)
  }

  /** A matched token takes an unused parent token of its own, and matches it. */
  ghost predicate Injects(v: Vocabulary, sub: seq<string>, parent: seq<string>, used: Pool, f: seq<nat>)
    requires |used| == |parent|
  {
    && |f| == |sub| && (forall i :: 0 <= i < |f| ==> f[i] <= |parent|)
    && (forall i :: 0 <= i < |f| && f[i] < |parent| ==> !used[f[i]] && TokensMatch(v, sub[i], parent[f[i]]))
    && (forall i, j :: 0 <= i < j < |f| && f[i] < |parent| ==> f[i] != f[j])
  }

  lemma InjectsStep(v: Vocabulary, token: string, sub: seq<string>, parent: seq<string>, used: Pool, p: nat, f: seq<nat>)
    requires |used| == |parent| && p <= |parent|
    requires p < |parent| ==> !used[p] && TokensMatch(v, token, parent[p])
    requires Injects(v, sub, parent, if p < |parent| then used[p := true] else used, f)
    ensures Injects(v, [token] + sub, parent, used, [p] + f)
  {
    var g := [p] + f;
    forall i | 0 < i < |g| ensures g[i] == f[i - 1] && ([token] + sub)[i] == sub[i - 1] {}
  }

  lemma {:induction false} AssignmentInjective(v: Vocabulary, sub: seq<string>, parent: seq<string>, used: Pool)
    requires |used| == |parent|
    ensures Injects(v, sub, parent, used, Assignment(v, sub, parent, used))
    decreases |sub|
  {
    if sub != [] {
      var p := FirstMatch(v, sub[0], parent, used, 0);
      var used' := if p < |parent| then used[p := true] else used;
      AssignmentInjective(v, sub[1..], parent, used');
      InjectsStep(v, sub[0], sub[1..], parent, used, p, Assignment(v, sub[1..], parent, used'));
      assert sub == [sub[0]] + sub[1..];
    }
  }

  ghost function One(v: Vocabulary, token: string): multiset<string> {
    if v.Content(token) then multiset{} else multiset{token}
  }

  /** The function words of a token list, with multiplicity. */
  ghost function FunctionWordsOf(v: Vocabulary, tokens: seq<string>): multiset<string> {
    if tokens == [] then multiset{} else One(v, tokens[0]) + FunctionWordsOf(v, tokens[1..])
  }

  /** The function words a walk leaves without a parent token. */
  ghost function Leftover(v: Vocabulary, sub: seq<string>, parent: seq<string>, used: Pool): multiset<string>
    requires |used| == |parent|
    decreases |sub|
  {
    if sub == [] then multiset{}
    else
      var p := FirstMatch(v, sub[0], parent, used, 0);
      if p < |parent| then Leftover(v, sub[1..], parent, used[p := true])
      else One(v, sub[0]) + Leftover(v, sub[1..], parent, used)
  }

  /** The unused function words of the pool. */
  ghost function Available(v: Vocabulary, parent: seq<string>, used: Pool): multiset<string>
    requires |used| == |parent|
  {
    if parent == [] then multiset{}
    else (if used[0] then multiset{} else One(v, parent[0])) + Available(v, parent[1..], used[1..])
  }

  lemma {:induction false} AvailableHas(v: Vocabulary, parent: seq<string>, used: Pool, token: string)
    requires |used| == |parent|
    ensures token in Available(v, parent, used)
       <==> !v.Content(token) && exists i :: 0 <= i < |parent| && !used[i] && parent[i] == token
  {
    if parent != [] {
      AvailableHas(v, parent[1..], used[1..], token);
      if i :| 0 <= i < |parent| && !used[i] && parent[i] == token {
        if i > 0 { assert !used[1..][i - 1] && parent[1..][i - 1] == token; }
      }
    }
  }

  lemma {:induction false} AvailableTake(v: Vocabulary, parent: seq<string>, used: Pool, p: nat)
    requires |used| == |parent| && p < |parent| && !used[p]
    ensures Available(v, parent, used) == Available(v, parent, used[p := true]) + One(v, parent[p])
  {
    var after := used[p := true];
    if p > 0 {
      AvailableTake(v, parent[1..], used[1..], p - 1);
      assert after[1..] == used[1..][p - 1 := true];
    } else {
      assert after[1..] == used[1..];
    }
  }

  /** A word taken from the pool leaves the excess alone. */
  lemma ExcessTaken(one: multiset<string>, words: multiset<string>, pool: multiset<string>)
    ensures (one + words) - (pool + one) == words - pool
  {
  }

  /** A word the pool does not have joins the excess. */
  lemma ExcessMissed(one: multiset<string>, words: multiset<string>, pool: multiset<string>)
    requires one !! pool
    ensures (one + words) - pool == one + (words - pool)
  {
  }

  lemma OneOfMatch(v: Vocabulary, a: string, b: string)
    requires TokensMatch(v, a, b)
    ensures One(v, a) == One(v, b)
  {
  }

  lemma MissedNotAvailable(v: Vocabulary, token: string, parent: seq<string>, used: Pool)
    requires |used| == |parent| && FirstMatch(v, token, parent, used, 0) == |parent|
    ensures One(v, token) !! Available(v, parent, used)
  {
    AvailableHas(v, parent, used, token);
    if !v.Content(token) {
      forall i | 0 <= i < |parent| && !used[i] ensures parent[i] != token {
        assert !TokensMatch(v, token, parent[i]);
      }
    }
  }

  /** The leftover is the multiset excess, whatever the content tokens took. */
  lemma {:induction false} LeftoverIsExcess(v: Vocabulary, sub: seq<string>, parent: seq<string>, used: Pool)
    requires |used| == |parent|
    ensures Leftover(v, sub, parent, used) == FunctionWordsOf(v, sub) - Available(v, parent, used)
    decreases |sub|
  {
    if sub != [] {
      var p := FirstMatch(v, sub[0], parent, used, 0);
      var one, words := One(v, sub[0]), FunctionWordsOf(v, sub[1..]);
      if p < |parent| {
        AvailableTake(v, parent, used, p);
        OneOfMatch(v, sub[0], parent[p]);
        LeftoverIsExcess(v, sub[1..], parent, used[p := true]);
        ExcessTaken(one, words, Available(v, parent, used[p := true]));
      } else {
        MissedNotAvailable(v, sub[0], parent, used);
        LeftoverIsExcess(v, sub[1..], parent, used);
        ExcessMissed(one, words, Available(v, parent, used));
      }
    }
  }

  lemma {:induction false} FreshAvailable(v: Vocabulary, parent: seq<string>)
    ensures Available(v, parent, Fresh(|parent|)) == FunctionWordsOf(v, parent)
  {
    if parent != [] {
      assert Fresh(|parent|)[1..] == Fresh(|parent[1..]|);
      FreshAvailable(v, parent[1..]);
    }
  }

  /** Every content token of the sub claim found a parent token. */
  ghost predicate ContentMatched(v: Vocabulary, sub: seq<string>, parent: seq<string>, f: seq<nat>) {
    |f| == |sub| && forall i :: 0 <= i < |sub| && v.Content(sub[i]) ==> f[i] < |parent|
  }

  /** The walk stops nowhere exactly when all content matched and the added
      function words stay within the budget. */
  lemma {:induction false} WalkVerdict(v: Vocabulary, sub: seq<string>, parent: seq<string>, used: Pool, added: nat)
    requires |used| == |parent| && added <= MAX_ADDED_FUNCTION_WORDS
    ensures Walk(v, sub, parent, used, added).NoStop?
       <==> ContentMatched(v, sub, parent, Assignment(v, sub, parent, used))
            && added + |Leftover(v, sub, parent, used)| <= MAX_ADDED_FUNCTION_WORDS
    decreases |sub|
  {
    if sub != [] {
      var p := FirstMatch(v, sub[0], parent, used, 0);
      var used' := if p < |parent| then used[p := true] else used;
      var f, g := Assignment(v, sub, parent, used), Assignment(v, sub[1..], parent, used');
      assert f == [p] + g;
      assert ContentMatched(v, sub, parent, f) <==>
        (v.Content(sub[0]) ==> p < |parent|) && ContentMatched(v, sub[1..], parent, g) by {
        assert forall i :: 0 < i < |sub| ==> sub[i] == sub[1..][i - 1] && f[i] == g[i - 1];
        assert forall i :: 0 <= i < |sub[1..]| ==> sub[1..][i] == sub[i + 1] && f[i + 1] == g[i];
      }
      if p < |parent| {
        WalkVerdict(v, sub[1..], parent, used', added);
      } else if !v.Content(sub[0]) && added + 1 <= MAX_ADDED_FUNCTION_WORDS {
        WalkVerdict(v, sub[1..], parent, used, added + 1);
      }
    }
  }

  /** The bound the guard puts on an accepted sub claim: an injection of its
      content tokens into matching parent content tokens, and at most two added
      function words, which are exactly the multiset excess over the parent. */
  lemma AcceptedIsBounded(v: Vocabulary, sub: seq<string>, parent: seq<string>)
    ensures AdditiveStop(v, sub, parent).NoStop? <==>
      && ContentMatched(v, sub, parent, Assignment(v, sub, parent, Fresh(|parent|)))
      && |FunctionWordsOf(v, sub) - FunctionWordsOf(v, parent)| <= MAX_ADDED_FUNCTION_WORDS
    ensures AdditiveStop(v, sub, parent).NoStop? ==>
      exists f: seq<nat> :: ContentMatched(v, sub, parent, f) && InjectiveOnContent(v, sub, parent, f)
  {
    var used := Fresh(|parent|);
    WalkVerdict(v, sub, parent, used, 0);
    LeftoverIsExcess(v, sub, parent, used);
    FreshAvailable(v, parent);
    AssignmentInjective(v, sub, parent, used);
    assert ContentMatched(v, sub, parent, Assignment(v, sub, parent, used)) ==>
      InjectiveOnContent(v, sub, parent, Assignment(v, sub, parent, used));
  }

  ghost predicate InjectiveOnContent(v: Vocabulary, sub: seq<string>, parent: seq<string>, f: seq<nat>)
    requires ContentMatched(v, sub, parent, f)
  {
    && (forall i :: 0 <= i < |sub| && v.Content(sub[i]) ==>
          TokensMatch(v, sub[i], parent[f[i]]) && v.Content(parent[f[i]]))
    && (forall i, j :: 0 <= i < j < |sub| && v.Content(sub[i]) && v.Content(sub[j]) ==> f[i] != f[j])
  }

  // ----- Greedy never loses an order preserving match -----

  /** `f` sends the content tokens, in order, to matching parent tokens. */
  ghost predicate InOrder(v: Vocabulary, sub: seq<string>, parent: seq<string>, f: seq<nat>) {
    && |f| == |sub|
    && (forall i :: 0 <= i < |sub| && v.Content(sub[i]) ==> f[i] < |parent| && TokensMatch(v, sub[i], parent[f[i]]))
    && (forall i, j :: 0 <= i < j < |sub| && v.Content(sub[i]) && v.Content(sub[j]) ==> f[i] < f[j])
  }

  /** Content positions at or past the next target of `f` are still unused. */
  ghost predicate AheadUnused(v: Vocabulary, sub: seq<string>, parent: seq<string>, f: seq<nat>, used: Pool) {
    && |used| == |parent| && |f| == |sub|
    && forall i, k :: 0 <= i < |sub| && v.Content(sub[i]) && f[i] <= k < |parent| && v.Content(parent[k]) ==> !used[k]
  }

  lemma {:induction false} GreedyKeepsUp(v: Vocabulary, sub: seq<string>, parent: seq<string>, f: seq<nat>, used: Pool)
    requires InOrder(v, sub, parent, f) && AheadUnused(v, sub, parent, f, used)
    ensures ContentMatched(v, sub, parent, Assignment(v, sub, parent, used))
    decreases |sub|
  {
    if sub != [] {
      var p := FirstMatch(v, sub[0], parent, used, 0);
      var used' := if p < |parent| then used[p := true] else used;
      if v.Content(sub[0]) {
        assert TokensMatch(v, sub[0], parent[f[0]]) && !used[f[0]];
        assert p <= f[0];
      }
      forall i, k | 0 <= i < |sub[1..]| && v.Content(sub[1..][i]) && f[1..][i] <= k < |parent| && v.Content(parent[k])
        ensures !used'[k]
      {
        assert sub[1..][i] == sub[i + 1] && f[1..][i] == f[i + 1];
        assert !used[k];
      }
      GreedyKeepsUp(v, sub[1..], parent, f[1..], used');
      var a, b := Assignment(v, sub, parent, used), Assignment(v, sub[1..], parent, used');
      forall i | 0 <= i < |sub| && v.Content(sub[i]) ensures a[i] < |parent| {
        if i > 0 { assert sub[i] == sub[1..][i - 1] && a[i] == b[i - 1]; }
      }
    }
  }

  /** A sub claim whose content tokens occur in the parent in order, up to a
      shared stem, with at most two extra function words, is additive free. */
  lemma InOrderIsAdditiveFree(v: Vocabulary, sub: seq<string>, parent: seq<string>, f: seq<nat>)
    requires InOrder(v, sub, parent, f)
    requires |FunctionWordsOf(v, sub) - FunctionWordsOf(v, parent)| <= MAX_ADDED_FUNCTION_WORDS
    ensures AdditiveStop(v, sub, parent).NoStop?
  {
    GreedyKeepsUp(v, sub, parent, f, Fresh(|parent|));
    AcceptedIsBounded(v, sub, parent);
  }

  /** A subsequence: strictly increasing positions with equal tokens. */
  ghost predicate Subsequence(sub: seq<string>, parent: seq<string>, f: seq<nat>) {
    && |f| == |sub|
    && (forall i :: 0 <= i < |sub| ==> f[i] < |parent| && sub[i] == parent[f[i]])
    && (forall i, j :: 0 <= i < j < |sub| ==> f[i] < f[j])
  }

  lemma {:induction false} SubsequenceFunctionWords(v: Vocabulary, sub: seq<string>, parent: seq<string>, f: seq<nat>)
    requires Subsequence(sub, parent, f)
    ensures FunctionWordsOf(v, sub) <= FunctionWordsOf(v, parent)
    decreases |parent|
  {
    if sub != [] && parent != [] {
      var rest := parent[1..];
      if f[0] == 0 {
        var g := seq(|sub| - 1, i requires 0 <= i < |sub| - 1 => f[i + 1] - 1);
        assert Subsequence(sub[1..], rest, g) by {
          forall i | 0 <= i < |sub| - 1 ensures g[i] < |rest| && sub[1..][i] == rest[g[i]] {
            assert f[0] < f[i + 1] && sub[1..][i] == sub[i + 1];
          }
          forall i, j | 0 <= i < j < |sub| - 1 ensures g[i] < g[j] { assert f[i + 1] < f[j + 1]; }
        }
        SubsequenceFunctionWords(v, sub[1..], rest, g);
      } else {
        assert forall i :: 0 <= i < |sub| ==> f[i] > 0;
        var g := seq(|sub|, i requires 0 <= i < |sub| => f[i] - 1);
        assert Subsequence(sub, rest, g);
        SubsequenceFunctionWords(v, sub, rest, g);
      }
    }
  }

  // ----- The completeness half -----

  /** The first parent token that is demanded and matched by nothing, if any. */
  function FirstOmitted(v: Vocabulary, parent: seq<string>, response: seq<string>): (omitted: seq<string>)
    ensures |omitted| <= 1
    ensures omitted == [] <==> forall t :: t in parent && !v.Exempt(t) ==> exists r :: r in response && TokensMatch(v, t, r)
    ensures omitted != [] ==> omitted[0] in parent && !v.Exempt(omitted[0])
                              && forall r :: r in response ==> !TokensMatch(v, omitted[0], r)
  {
    if parent == [] then []
    else if !v.Exempt(parent[0]) && forall r :: r in response ==> !TokensMatch(v, parent[0], r) then [parent[0]]
    else
      assert forall t :: t in parent <==> t == parent[0] || t in parent[1..];
      FirstOmitted(v, parent[1..], response)
  }

  /** The tokens of every sub claim, in response order. */
  function Flat(parts: seq<seq<string>>): seq<string> {
    if parts == [] then [] else parts[0] + Flat(parts[1..])
  }

  lemma {:induction false} FlatHas(parts: seq<seq<string>>, token: string)
    ensures token in Flat(parts) <==> exists part :: part in parts && token in part
  {
    if parts != [] {
      FlatHas(parts[1..], token);
      assert forall part :: part in parts <==> part == parts[0] || part in parts[1..];
    }
  }

  // ----- The verdict -----

  datatype Verdict =
    | Valid
    | OverCap
    | Duplicate
    | NotAdditive(category: Category, token: string)
    | Incomplete(omitted: string)
  {
    predicate Retryable() { NotAdditive? || Incomplete? }
  }

  /** The first part that adds to the parent, as its stop. */
  function FirstStop(v: Vocabulary, parts: seq<seq<string>>, parent: seq<string>): (stop: Stop)
    ensures stop.NoStop? <==> forall part :: part in parts ==> AdditiveStop(v, part, parent).NoStop?
  {
    if parts == [] then NoStop
    else if AdditiveStop(v, parts[0], parent).Stop? then
      assert parts[0] in parts;
      AdditiveStop(v, parts[0], parent)
    else
      assert forall part :: part in parts <==> part == parts[0] || part in parts[1..];
      FirstStop(v, parts[1..], parent)
  }

  /** The two half test over tokenized parts. */
  function Judge(v: Vocabulary, parts: seq<seq<string>>, parent: seq<string>): Verdict {
    var stop := FirstStop(v, parts, parent);
    if stop.Stop? then NotAdditive(stop.category, stop.token)
    else
      var omitted := FirstOmitted(v, parent, Flat(parts));
      if omitted != [] then Incomplete(omitted[0]) else Valid
  }

  predicate Distinct(fold: string -> string, texts: seq<string>) {
    forall i, j :: 0 <= i < j < |texts| ==> Normalize(fold, texts[i]) != Normalize(fold, texts[j])
  }

  function Parts(fold: string -> string, texts: seq<string>): seq<seq<string>> {
    seq(|texts|, i requires 0 <= i < |texts| => SentenceTokens(fold, texts[i]))
  }

  function Classify(v: Vocabulary, fold: string -> string, texts: seq<string>, parentText: string): Verdict {
    if |texts| > MAX_SUB_CLAIMS then OverCap
    else if !Distinct(fold, texts) then Duplicate
    else Judge(v, Parts(fold, texts), SentenceTokens(fold, parentText))
  }

  /** `classify_decomposition_detail` with its loop over the sub claims. */
  method RunClassify(v: Vocabulary, fold: string -> string, texts: seq<string>, parentText: string)
    returns (verdict: Verdict)
    ensures verdict == Classify(v, fold, texts, parentText)
  {
    if |texts| > MAX_SUB_CLAIMS {
      return OverCap;
    }
    if !Distinct(fold, texts) {
      return Duplicate;
    }
    var parent := RunSentenceTokens(fold, parentText);
    var stop := RunFirstStop(v, fold, texts, parent);
    if stop.Stop? {
      return NotAdditive(stop.category, stop.token);
    }
    var omitted := RunComplete(v, fold, texts, parent);
    if omitted != [] {
      return Incomplete(omitted[0]);
    }
    return Valid;
  }

  method RunFirstStop(v: Vocabulary, fold: string -> string, texts: seq<string>, parent: seq<string>)
    returns (stop: Stop)
    ensures stop == FirstStop(v, Parts(fold, texts), parent)
  {
    ghost var all := Parts(fold, texts);
    assert all[0..] == all;
    for k := 0 to |texts|
      invariant FirstStop(v, all[k..], parent) == FirstStop(v, all, parent)
    {
      assert all[k..][1..] == all[k + 1..];
      var tokens := RunSentenceTokens(fold, texts[k]);
      stop := RunAdditive(v, tokens, parent);
      if stop.Stop? {
        return stop;
      }
    }
    return NoStop;
  }

  /** `response_is_complete`: the walk over the parent tokens, stopping early. */
  method RunComplete(v: Vocabulary, fold: string -> string, texts: seq<string>, parent: seq<string>)
    returns (omitted: seq<string>)
    ensures omitted == FirstOmitted(v, parent, Flat(Parts(fold, texts)))
  {
    var response := Flat(Parts(fold, texts));
    assert parent[0..] == parent;
    for i := 0 to |parent|
      invariant FirstOmitted(v, parent[i..], response) == FirstOmitted(v, parent, response)
    {
      assert parent[i..][1..] == parent[i + 1..];
      var token := parent[i];
      if v.Exempt(token) {
        continue;
      }
      if forall r :: r in response ==> !TokensMatch(v, token, r) {
        return [token];
      }
    }
    return [];
  }

  ghost predicate SomePartMatches(v: Vocabulary, parts: seq<seq<string>>, token: string) {
    exists part, r :: part in parts && r in part && TokensMatch(v, token, r)
  }

  /** Valid means exactly: no part adds, and every demanded parent token is
      matched by a token of some part. */
  lemma JudgeValidExactly(v: Vocabulary, parts: seq<seq<string>>, parent: seq<string>)
    ensures Judge(v, parts, parent).Valid? <==>
      && (forall part :: part in parts ==> AdditiveStop(v, part, parent).NoStop?)
      && (forall t :: t in parent && !v.Exempt(t) ==> SomePartMatches(v, parts, t))
  {
    forall t: string
      ensures (exists r :: r in Flat(parts) && TokensMatch(v, t, r)) <==> SomePartMatches(v, parts, t)
    {
      forall r { FlatHas(parts, r); }
    }
  }

  lemma ValidExactly(v: Vocabulary, fold: string -> string, texts: seq<string>, parentText: string)
    ensures Classify(v, fold, texts, parentText).Valid? <==>
      var parts, parent := Parts(fold, texts), SentenceTokens(fold, parentText);
      && |texts| <= MAX_SUB_CLAIMS && Distinct(fold, texts)
      && (forall part :: part in parts ==> AdditiveStop(v, part, parent).NoStop?)
      && (forall t :: t in parent && !v.Exempt(t) ==> SomePartMatches(v, parts, t))
  {
    JudgeValidExactly(v, Parts(fold, texts), SentenceTokens(fold, parentText));
  }

  /** A faithful split: each part a subsequence of the parent's tokens, every
      demanded parent token in some part. */
  ghost predicate FaithfulSplit(v: Vocabulary, parts: seq<seq<string>>, parent: seq<string>) {
    && (forall part :: part in parts ==> exists f :: Subsequence(part, parent, f))
    && (forall t :: t in parent && !v.Exempt(t) ==> exists part :: part in parts && t in part)
  }

  lemma FaithfulPartsAccepted(v: Vocabulary, parts: seq<seq<string>>, parent: seq<string>)
    requires FaithfulSplit(v, parts, parent)
    ensures Judge(v, parts, parent).Valid?
  {
    forall part | part in parts ensures AdditiveStop(v, part, parent).NoStop? {
      var f :| Subsequence(part, parent, f);
      SubsequenceFunctionWords(v, part, parent, f);
      assert FunctionWordsOf(v, part) - FunctionWordsOf(v, parent) == multiset{};
      InOrderIsAdditiveFree(v, part, parent, f);
    }
    JudgeValidExactly(v, parts, parent);
  }

  /** The guard accepts every faithful split although it never backtracks. */
  lemma FaithfulSplitAccepted(v: Vocabulary, fold: string -> string, texts: seq<string>, parentText: string)
    requires |texts| <= MAX_SUB_CLAIMS && Distinct(fold, texts)
    requires FaithfulSplit(v, Parts(fold, texts), SentenceTokens(fold, parentText))
    ensures Classify(v, fold, texts, parentText).Valid?
  {
    FaithfulPartsAccepted(v, Parts(fold, texts), SentenceTokens(fold, parentText));
  }

  /** The whole sentence as its own single part is always accepted. */
  lemma WholeSentenceAccepted(v: Vocabulary, fold: string -> string, parentText: string)
    ensures Classify(v, fold, [parentText], parentText).Valid?
  {
    var parent := SentenceTokens(fold, parentText);
    assert Parts(fold, [parentText]) == [parent];
    assert Subsequence(parent, parent, seq(|parent|, i => i));
    FaithfulPartsAccepted(v, [parent], parent);
  }

  /** Sound, not complete: `car care` fits `cared car` one to one, yet the
      first token takes `cared` and the second finds nothing. */
  lemma GreedyIsNotComplete(v: Vocabulary)
    requires v.Content("car") && v.Content("care") && v.Content("cared")
    requires v.related == SHIPPED.related
    ensures AdditiveStop(v, ["car", "care"], ["cared", "car"]) == Stop(ContentToken, "care")
    ensures TokensMatch(v, "car", "car") && TokensMatch(v, "care", "cared")
  {
    RelatedFacts(v);
    var parent := ["cared", "car"];
    var used := Fresh(2);
    assert FirstMatch(v, "car", parent, used, 0) == 0;
    var taken := used[0 := true];
    assert FirstMatch(v, "care", parent, taken, 1) == 2;
    assert FirstMatch(v, "care", parent, taken, 0) == 2;
    assert ["car", "care"][1..] == ["care"];
    assert Walk(v, ["care"], parent, taken, 0) == Stop(ContentToken, "care");
  }

  lemma RelatedFacts(v: Vocabulary)
    requires v.related == SHIPPED.related
    ensures v.related("car", "cared") && v.related("care", "cared") && !v.related("care", "car")
  {
    assert v.related == BaseSetsIntersect;
    MatchIsNotTransitive();
    IntersectIsCommonBase("car", "care");
    IntersectIsCommonBase("cared", "care");
  }
}
