/** The evaluation oracle of `application/evaluation.py` and the static check
    that an expectation can be met at all. */
module Oracle {
  import opened Options
  import AnswerLoop
  import Ordering
  import Text

  datatype State = ANSWERED | ABSTAINED | FAILED
  datatype Stage = Filters | Retrieval | ClaimVerification
  datatype Cause = NoEmittedSentences | UncoveredFacet

  datatype Citation = Citation(citationId: string, recordId: string, valuePath: string)
  datatype Sentence = Sentence(sentenceId: string, citationIds: seq<string>)
  datatype Row = Row(covered: bool, reason: string, sentenceIds: seq<string>)

  datatype Result = Result(
    state: State, stage: Option<Stage>, sentences: seq<Sentence>, citations: seq<Citation>, coverage: seq<Row>)

  datatype QueryOracle = QueryOracle(
    expected: State, required: set<string>, prefixes: seq<string>,
    citeAllProposed: bool, expectedAbstention: Option<Cause>, coveringSentenceScope: bool)

  datatype Proposed = Proposed(ids: set<string>, unparsed: nat)

  // ----- The run time oracle -----

  function AbstentionCause(r: Result): Option<Cause> {
    if r.state != ABSTAINED || r.stage != Some(ClaimVerification) || r.coverage == [] then None
    else if forall i :: 0 <= i < |r.coverage| ==> r.coverage[i].reason == AnswerLoop.NO_EMITTED_SENTENCE_REASON
    then Some(NoEmittedSentences)
    else Some(UncoveredFacet)
  }

  predicate Cited(r: Result, record: string) {
    exists c :: c in r.citations && c.recordId == record
  }

  /** The sentence is named by a covered coverage row. */
  predicate Covers(r: Result, sentenceId: string) {
    exists row :: row in r.coverage && row.covered && sentenceId in row.sentenceIds
  }

  /** The citation belongs to a covering sentence. */
  predicate CoveringCitation(r: Result, citationId: string) {
    exists s :: s in r.sentences && Covers(r, s.sentenceId) && citationId in s.citationIds
  }

  predicate NoCoveringCitation(r: Result) {
    forall s :: s in r.sentences && Covers(r, s.sentenceId) ==> s.citationIds == []
  }

  function RecordScope(o: QueryOracle, proposed: Proposed): set<string> {
    if o.required != {} then o.required else if o.citeAllProposed then proposed.ids else {}
  }

  /** A prefix is matched by a candidate citation inside the record scope. */
  predicate PrefixMatched(r: Result, o: QueryOracle, proposed: Proposed, prefix: string) {
    exists c :: c in r.citations
      && (o.coveringSentenceScope ==> CoveringCitation(r, c.citationId))
      && prefix <= c.valuePath
      && (RecordScope(o, proposed) != {} ==> c.recordId in RecordScope(o, proposed))
  }

  /** `_satisfies`, without the text of its reason. */
  predicate Satisfies(r: Result, o: QueryOracle, proposed: Proposed) {
    if o.expected == ABSTAINED then
      && r.state == ABSTAINED && r.sentences == [] && r.citations == []
      && (o.expectedAbstention.Some? ==> AbstentionCause(r) == o.expectedAbstention)
    else if r.state != ANSWERED then false
    else if o.citeAllProposed && (proposed.unparsed > 0 || proposed.ids == {}
             || exists id :: id in proposed.ids && !Cited(r, id)) then false
    else if exists id :: id in o.required && !Cited(r, id) then false
    else if o.prefixes != [] && o.coveringSentenceScope && NoCoveringCitation(r) then false
    else forall k :: 0 <= k < |o.prefixes| ==> PrefixMatched(r, o, proposed, o.prefixes[k])
  }

  /** The cause of an abstention, in terms of its coverage rows. */
  lemma CauseExactly(r: Result)
    ensures AbstentionCause(r).Some? <==> r.state == ABSTAINED && r.stage == Some(ClaimVerification) && |r.coverage| > 0
    ensures AbstentionCause(r) == Some(UncoveredFacet) <==>
      && r.state == ABSTAINED && r.stage == Some(ClaimVerification)
      && exists row :: row in r.coverage && row.reason != AnswerLoop.NO_EMITTED_SENTENCE_REASON
  {
    if AbstentionCause(r) == Some(UncoveredFacet) {
      var i :| 0 <= i < |r.coverage| && r.coverage[i].reason != AnswerLoop.NO_EMITTED_SENTENCE_REASON;
      assert r.coverage[i] in r.coverage;
    }
  }

  /** The answer cites the record. */
  ghost predicate CitesRecordOf(r: Result, id: string) {
    exists c :: c in r.citations && c.recordId == id
  }

  /** A citation carries the prefix; if the oracle asks for it, a covered row
      names a sentence that cites it. */
  ghost predicate Shows(r: Result, covering: bool, within: set<string>, c: Citation, prefix: string) {
    && c in r.citations && prefix <= c.valuePath && (within != {} ==> c.recordId in within)
    && (covering ==> exists s, row ::
          && s in r.sentences && c.citationId in s.citationIds
          && row in r.coverage && row.covered && s.sentenceId in row.sentenceIds)
  }

  lemma CoveringExactly(r: Result, citationId: string)
    ensures CoveringCitation(r, citationId) <==> exists s, row ::
      && s in r.sentences && citationId in s.citationIds
      && row in r.coverage && row.covered && s.sentenceId in row.sentenceIds
  {
    if CoveringCitation(r, citationId) {
      var s :| s in r.sentences && Covers(r, s.sentenceId) && citationId in s.citationIds;
      var row :| row in r.coverage && row.covered && s.sentenceId in row.sentenceIds;
    }
    if s, row :| s in r.sentences && citationId in s.citationIds && row in r.coverage && row.covered && s.sentenceId in row.sentenceIds {
      assert Covers(r, s.sentenceId);
    }
  }

  /** What an answering oracle asks of an answer: every named record, and with
      the flag every proposed one, is cited, and every prefix is shown, on a
      named record or else, with the flag, on a proposed one. The check for a
      covering sentence without citations only changes the message. */
  lemma AnswerMeetsExactly(r: Result, o: QueryOracle, proposed: Proposed)
    requires o.expected != ABSTAINED
    ensures var within := if o.required != {} then o.required else if o.citeAllProposed then proposed.ids else {};
      Satisfies(r, o, proposed) <==>
        && r.state == ANSWERED
        && (o.citeAllProposed ==>
              proposed.unparsed == 0 && proposed.ids != {} && forall id :: id in proposed.ids ==> CitesRecordOf(r, id))
        && (forall id :: id in o.required ==> CitesRecordOf(r, id))
        && (forall prefix :: prefix in o.prefixes ==> exists c :: Shows(r, o.coveringSentenceScope, within, c, prefix))
  {
    PrefixesMatched(r, o, proposed);
    forall prefix ensures PrefixMatched(r, o, proposed, prefix)
      <==> exists c :: Shows(r, o.coveringSentenceScope, RecordScope(o, proposed), c, prefix)
    {
      PrefixMatchedExactly(r, o, proposed, prefix);
    }
  }

  /** The early exits and the loop over prefixes, as one condition. */
  lemma PrefixesMatched(r: Result, o: QueryOracle, proposed: Proposed)
    requires o.expected != ABSTAINED
    ensures Satisfies(r, o, proposed) <==>
      && r.state == ANSWERED
      && (o.citeAllProposed ==> proposed.unparsed == 0 && proposed.ids != {} && forall id :: id in proposed.ids ==> CitesRecordOf(r, id))
      && (forall id :: id in o.required ==> CitesRecordOf(r, id))
      && (forall prefix :: prefix in o.prefixes ==> PrefixMatched(r, o, proposed, prefix))
  {
    assert forall id :: Cited(r, id) <==> CitesRecordOf(r, id);
    assert (forall k :: 0 <= k < |o.prefixes| ==> PrefixMatched(r, o, proposed, o.prefixes[k]))
      <==> (forall prefix :: prefix in o.prefixes ==> PrefixMatched(r, o, proposed, prefix));
    if o.prefixes != [] && o.coveringSentenceScope && NoCoveringCitation(r) {
      assert !PrefixMatched(r, o, proposed, o.prefixes[0]) by {
        assert forall id :: !CoveringCitation(r, id);
      }
    }
  }

  lemma PrefixMatchedExactly(r: Result, o: QueryOracle, proposed: Proposed, prefix: string)
    ensures PrefixMatched(r, o, proposed, prefix) <==>
      exists c :: Shows(r, o.coveringSentenceScope, RecordScope(o, proposed), c, prefix)
  {
    forall c: Citation
      ensures Shows(r, o.coveringSentenceScope, RecordScope(o, proposed), c, prefix) <==>
        && c in r.citations && (o.coveringSentenceScope ==> CoveringCitation(r, c.citationId)) && prefix <= c.valuePath
        && (RecordScope(o, proposed) != {} ==> c.recordId in RecordScope(o, proposed))
    {
      CoveringExactly(r, c.citationId);
    }
  }

  // ----- The static check -----

  /** One active chunk, as far as citations can see it. */
  datatype Active = Active(recordId: string, valuePath: string)

  /** `record_value_paths`: every record with the paths its active chunks carry. */
  method RecordValuePaths(chunks: seq<Active>) returns (paths: map<string, set<string>>)
    ensures forall r :: r in paths <==> exists p :: Active(r, p) in chunks
    ensures forall r, p :: r in paths ==> (p in paths[r] <==> Active(r, p) in chunks)
  {
    paths := map[];
    for i := 0 to |chunks|
      invariant forall r :: r in paths <==> exists p :: Active(r, p) in chunks[..i]
      invariant forall r, p :: r in paths ==> (p in paths[r] <==> Active(r, p) in chunks[..i])
    {
      var c := chunks[i];
      assert chunks[..i + 1] == chunks[..i] + [c] && c == Active(c.recordId, c.valuePath);
      var known := if c.recordId in paths then paths[c.recordId] else {};
      paths := paths[c.recordId := known + {c.valuePath}];
    }
    assert chunks[..|chunks|] == chunks;
  }

  type PathMap = map<string, set<string>>

  /** Some record of the scope carries a path with the prefix. */
  predicate Carried(paths: PathMap, scope: set<string>, prefix: string)
    requires scope <= paths.Keys
  {
    exists r, p :: r in scope && p in paths[r] && prefix <= p
  }

  datatype Problem = MissingRecord(fixture: string, record: string) | NoPrefix(fixture: string, prefix: string)
  datatype Fixture = QueryFixture(id: string, oracle: Option<QueryOracle>) | OtherFixture(id: string)

  /** No record of the scope exists, or one carries the prefix. */
  predicate PrefixPasses(o: QueryOracle, paths: PathMap, prefix: string) {
    var scope := o.required * paths.Keys;
    scope == {} || Carried(paths, scope, prefix)
  }

  function PrefixProblems(id: string, o: QueryOracle, paths: PathMap, prefixes: seq<string>): seq<Problem> {
    if prefixes == [] then []
    else
      PrefixProblems(id, o, paths, prefixes[..|prefixes| - 1])
      + if PrefixPasses(o, paths, prefixes[|prefixes| - 1]) then [] else [NoPrefix(id, prefixes[|prefixes| - 1])]
  }

  function MissingProblems(id: string, missing: seq<string>): seq<Problem> {
    seq(|missing|, i requires 0 <= i < |missing| => MissingRecord(id, missing[i]))
  }

  function ProblemsOf(f: Fixture, paths: PathMap): seq<Problem> {
    if f.OtherFixture? || f.oracle.None? then []
    else
      var o := f.oracle.value;
      MissingProblems(f.id, Ordering.SortedIds(o.required - paths.Keys)) + PrefixProblems(f.id, o, paths, o.prefixes)
  }

  function AllProblems(fixtures: seq<Fixture>, paths: PathMap): seq<Problem> {
    if fixtures == [] then []
    else AllProblems(fixtures[..|fixtures| - 1], paths) + ProblemsOf(fixtures[|fixtures| - 1], paths)
  }

  /** `unsatisfiable_oracles` with its loops over fixtures and prefixes. */
  method UnsatisfiableOracles(fixtures: seq<Fixture>, paths: PathMap) returns (problems: seq<Problem>)
    ensures problems == AllProblems(fixtures, paths)
  {
    problems := [];
    for i := 0 to |fixtures|
      invariant problems == AllProblems(fixtures[..i], paths)
    {
      assert fixtures[..i + 1][..i] == fixtures[..i];
      var f := fixtures[i];
      if f.OtherFixture? || f.oracle.None? {
        continue;
      }
      var o := f.oracle.value;
      var missing := Ordering.SortedIds(o.required - paths.Keys);
      var found := CheckPrefixes(f.id, o, paths);
      problems := problems + (MissingProblems(f.id, missing) + found);
    }
    assert fixtures[..|fixtures|] == fixtures;
  }

  method CheckPrefixes(id: string, o: QueryOracle, paths: PathMap) returns (problems: seq<Problem>)
    ensures problems == PrefixProblems(id, o, paths, o.prefixes)
  {
    problems := [];
    var scope := o.required * paths.Keys;
    for k := 0 to |o.prefixes|
      invariant problems == PrefixProblems(id, o, paths, o.prefixes[..k])
    {
      assert o.prefixes[..k + 1][..k] == o.prefixes[..k];
      var prefix := o.prefixes[k];
      if scope == {} {
        continue;
      }
      if !Carried(paths, scope, prefix) {
        problems := problems + [NoPrefix(id, prefix)];
      }
    }
    assert o.prefixes[..|o.prefixes|] == o.prefixes;
  }

  // ----- The check is exact -----

  lemma {:induction false} NoPrefixProblems(id: string, o: QueryOracle, paths: PathMap, prefixes: seq<string>)
    ensures PrefixProblems(id, o, paths, prefixes) == [] <==>
      forall k :: 0 <= k < |prefixes| ==> PrefixPasses(o, paths, prefixes[k])
  {
    if prefixes != [] { NoPrefixProblems(id, o, paths, prefixes[..|prefixes| - 1]); }
  }

  lemma NoProblems(f: Fixture, paths: PathMap)
    requires f.QueryFixture? && f.oracle.Some?
    ensures ProblemsOf(f, paths) == [] <==>
      && f.oracle.value.required <= paths.Keys
      && forall k :: 0 <= k < |f.oracle.value.prefixes| ==> PrefixPasses(f.oracle.value, paths, f.oracle.value.prefixes[k])
  {
    var o := f.oracle.value;
    NoPrefixProblems(f.id, o, paths, o.prefixes);
    var missing := Ordering.SortedIds(o.required - paths.Keys);
    assert missing == [] <==> o.required <= paths.Keys by {
      if missing == [] {
        forall r | r in o.required ensures r in paths { assert r !in missing; }
      } else {
        assert missing[0] in missing;
      }
    }
  }

  lemma {:induction false} PrefixProblemsHave(id: string, o: QueryOracle, paths: PathMap, prefixes: seq<string>, p: Problem)
    ensures p in PrefixProblems(id, o, paths, prefixes) <==>
      p.NoPrefix? && p.fixture == id && p.prefix in prefixes && !PrefixPasses(o, paths, p.prefix)
  {
    if prefixes != [] {
      var front, last := prefixes[..|prefixes| - 1], prefixes[|prefixes| - 1];
      PrefixProblemsHave(id, o, paths, front, p);
      assert prefixes == front + [last];
    }
  }

  /** The two problems an oracle can have: a named record that is not there, or
      named records of which none carries a path with the prefix. */
  ghost predicate HasProblem(f: Fixture, paths: PathMap, p: Problem) {
    && f.QueryFixture? && f.oracle.Some? && p.fixture == f.id
    && match p
       case MissingRecord(_, id) => id in f.oracle.value.required && id !in paths
       case NoPrefix(_, prefix) =>
         && prefix in f.oracle.value.prefixes
         && (exists id :: id in f.oracle.value.required && id in paths)
         && (forall id, path :: id in f.oracle.value.required && id in paths && path in paths[id] ==> !(prefix <= path))
  }

  lemma ProblemsOfHas(f: Fixture, paths: PathMap, p: Problem)
    ensures p in ProblemsOf(f, paths) <==> HasProblem(f, paths, p)
  {
    if f.QueryFixture? && f.oracle.Some? {
      var o := f.oracle.value;
      var missing := Ordering.SortedIds(o.required - paths.Keys);
      PrefixProblemsHave(f.id, o, paths, o.prefixes, p);
      assert p in MissingProblems(f.id, missing) <==> p.MissingRecord? && p.fixture == f.id && p.record in missing by {
        if p.MissingRecord? && p.fixture == f.id && p.record in missing {
          var i :| 0 <= i < |missing| && missing[i] == p.record;
          assert MissingProblems(f.id, missing)[i] == p;
        }
      }
      if p.NoPrefix? {
        var scope := o.required * paths.Keys;
        assert scope != {} <==> exists id :: id in o.required && id in paths by {
          if id :| id in o.required && id in paths { assert id in scope; }
          if scope != {} { var id :| id in scope; }
        }
      }
    }
  }

  lemma SomeFixture(front: seq<Fixture>, last: Fixture, paths: PathMap, p: Problem)
    ensures (exists f :: f in front + [last] && HasProblem(f, paths, p))
       <==> (exists f :: f in front && HasProblem(f, paths, p)) || HasProblem(last, paths, p)
  {
    if HasProblem(last, paths, p) { assert last in front + [last]; }
    if f :| f in front && HasProblem(f, paths, p) { assert f in front + [last]; }
  }

  /** The check reports every such problem of every fixture, and no other. */
  lemma {:induction false} ProblemsExactly(fixtures: seq<Fixture>, paths: PathMap, p: Problem)
    ensures p in AllProblems(fixtures, paths) <==> exists f :: f in fixtures && HasProblem(f, paths, p)
  {
    if fixtures != [] {
      var front, last := fixtures[..|fixtures| - 1], fixtures[|fixtures| - 1];
      ProblemsExactly(front, paths, p);
      ProblemsOfHas(last, paths, p);
      assert fixtures == front + [last];
      SomeFixture(front, last, paths, p);
    }
  }

  /** Every citation of the result is one of the active chunks. */
  ghost predicate FromActive(r: Result, paths: PathMap) {
    forall c :: c in r.citations ==> c.recordId in paths && c.valuePath in paths[c.recordId]
  }

  function Decimal(n: nat): string {
    if n < 10 then [['0', '1', '2', '3', '4', '5', '6', '7', '8', '9'][n]] else Decimal(n / 10) + Decimal(n % 10)
  }

  /** Citations are numbered C1, C2 and so on. */
  function CitationId(number: nat): string {
    "C" + Decimal(number)
  }

  predicate Names(r: Result, sentenceId: string) {
    exists s :: s in r.sentences && s.sentenceId == sentenceId
  }

  predicate Numbers(r: Result, citationId: string) {
    exists c :: c in r.citations && c.citationId == citationId
  }

  predicate AllCovered(r: Result) {
    forall row :: row in r.coverage ==> row.covered && row.sentenceIds != [] && forall id :: id in row.sentenceIds ==> Names(r, id)
  }

  /** The shape of every result a query returns: citations numbered in order,
      sentences that cite them, coverage rows with a reason that name sentences
      exactly when covered, and in an answer only covered rows that name its own
      sentences; an abstention has neither sentences nor citations. */
  ghost predicate WellFormed(r: Result) {
    && (forall i :: 0 <= i < |r.citations| ==> r.citations[i].citationId == CitationId(i + 1))
    && (forall s, c :: s in r.sentences && c in s.citationIds ==> Numbers(r, c))
    && (forall i, j :: 0 <= i < j < |r.sentences| ==> r.sentences[i].sentenceId != r.sentences[j].sentenceId)
    && (forall row :: row in r.coverage ==> !Text.Blank(row.reason) && (row.covered <==> row.sentenceIds != []))
    && (r.state == ANSWERED ==> r.sentences != [] && r.stage.None? && AllCovered(r))
    && (r.state != ANSWERED ==> r.sentences == [] && r.citations == [])
  }

  function Digit(c: char): nat {
    if '0' <= c <= '9' then (c - '0') as nat else 0
  }

  function Value(text: string): nat {
    if text == "" then 0 else 10 * Value(text[..|text| - 1]) + Digit(text[|text| - 1])
  }

  lemma DigitReadsBack(n: nat)
    requires n < 10
    ensures |Decimal(n)| == 1 && Digit(Decimal(n)[0]) == n
  {
  }

  lemma ValueAppend(text: string, digit: string)
    requires |digit| == 1
    ensures Value(text + digit) == 10 * Value(text) + Digit(digit[0])
  {
    assert (text + digit)[..|text|] == text;
  }

  lemma {:induction false} DecimalReadsBack(n: nat)
    ensures Value(Decimal(n)) == n
  {
    DigitReadsBack(n % 10);
    if n < 10 {
      assert Decimal(n)[..0] == "";
    } else {
      DecimalReadsBack(n / 10);
      ValueAppend(Decimal(n / 10), Decimal(n % 10));
    }
  }

  lemma CitationIdInjective(m: nat, n: nat)
    requires CitationId(m) == CitationId(n)
    ensures m == n
  {
    assert CitationId(m)[1..] == Decimal(m) && CitationId(n)[1..] == Decimal(n);
    DecimalReadsBack(m);
    DecimalReadsBack(n);
  }

  /** No citation id is given twice. */
  lemma CitationIdsDistinct(r: Result, i: nat, j: nat)
    requires WellFormed(r) && i < j < |r.citations|
    ensures r.citations[i].citationId != r.citations[j].citationId
  {
    if CitationId(i + 1) == CitationId(j + 1) { CitationIdInjective(i + 1, j + 1); }
  }

  /** Some answer over the active chunks meets the oracle. */
  ghost predicate Satisfiable(o: QueryOracle, proposed: Proposed, paths: PathMap) {
    exists r :: WellFormed(r) && FromActive(r, paths) && Satisfies(r, o, proposed)
  }

  /** Records in the map have at least one active chunk. */
  ghost predicate Populated(paths: PathMap) {
    forall r :: r in paths ==> paths[r] != {}
  }

  /** What the check leaves out is possible for some answer. */
  ghost predicate Reachable(o: QueryOracle, paths: PathMap) {
    && o.required <= paths.Keys
    && forall k :: 0 <= k < |o.prefixes| ==>
         if o.required == {} then Carried(paths, paths.Keys, o.prefixes[k]) else Carried(paths, o.required, o.prefixes[k])
  }

  lemma SatisfiableIsReachable(o: QueryOracle, proposed: Proposed, paths: PathMap, r: Result)
    requires o.expected == ANSWERED && !o.citeAllProposed
    requires FromActive(r, paths) && Satisfies(r, o, proposed)
    ensures Reachable(o, paths)
  {
    forall id | id in o.required ensures id in paths {
      assert Cited(r, id);
    }
    forall k | 0 <= k < |o.prefixes|
      ensures if o.required == {} then Carried(paths, paths.Keys, o.prefixes[k]) else Carried(paths, o.required, o.prefixes[k])
    {
      assert PrefixMatched(r, o, proposed, o.prefixes[k]);
      var c :| c in r.citations && o.prefixes[k] <= c.valuePath
        && (RecordScope(o, proposed) != {} ==> c.recordId in RecordScope(o, proposed));
      assert c.valuePath in paths[c.recordId];
    }
  }

  /** Every active chunk of some records, once or more. */
  ghost predicate ListsAll(chunks: seq<Active>, paths: PathMap, records: set<string>)
    requires records <= paths.Keys
  {
    && (forall c :: c in chunks ==> c.recordId in paths && c.valuePath in paths[c.recordId])
    && (forall r, p :: r in records && p in paths[r] ==> Active(r, p) in chunks)
  }

  lemma {:induction false} ListRecord(record: string, some: set<string>, paths: PathMap) returns (chunks: seq<Active>)
    requires record in paths && some <= paths[record]
    ensures forall c :: c in chunks ==> c.recordId == record && c.valuePath in paths[record]
    ensures forall p :: p in some ==> Active(record, p) in chunks
    decreases |some|
  {
    if some == {} {
      chunks := [];
    } else {
      var p :| p in some;
      var rest := ListRecord(record, some - {p}, paths);
      chunks := rest + [Active(record, p)];
    }
  }

  lemma {:induction false} ListEverything(paths: PathMap, records: set<string>) returns (chunks: seq<Active>)
    requires records <= paths.Keys
    ensures ListsAll(chunks, paths, records)
    decreases |records|
  {
    if records == {} {
      chunks := [];
    } else {
      var record :| record in records;
      var rest := ListEverything(paths, records - {record});
      var own := ListRecord(record, paths[record], paths);
      chunks := rest + own;
      forall r, p | r in records && p in paths[r] ensures Active(r, p) in chunks {
        if r == record { assert Active(r, p) in own; } else { assert Active(r, p) in rest; }
      }
    }
  }

  function Ids(n: nat): (ids: seq<string>)
    ensures |ids| == n && forall i :: 0 <= i < n ==> ids[i] == CitationId(i + 1)
  {
    seq(n, i requires 0 <= i < n => CitationId(i + 1))
  }

  function Numbered(chunks: seq<Active>, ids: seq<string>): (citations: seq<Citation>)
    requires |ids| == |chunks|
    ensures |citations| == |chunks|
    ensures forall i :: 0 <= i < |chunks| ==> citations[i] == Citation(ids[i], chunks[i].recordId, chunks[i].valuePath)
  {
    seq(|chunks|, i requires 0 <= i < |chunks| => Citation(ids[i], chunks[i].recordId, chunks[i].valuePath))
  }

  /** One sentence that cites every chunk listed and covers the question. */
  function Covering(chunks: seq<Active>, ids: seq<string>): Result
    requires |ids| == |chunks|
  {
    Result(ANSWERED, None, [Sentence("S1", ids)], Numbered(chunks, ids), [Row(true, "covered", ["S1"])])
  }

  function FullAnswer(chunks: seq<Active>): Result {
    Covering(chunks, Ids(|chunks|))
  }

  lemma CoveringShape(chunks: seq<Active>, ids: seq<string>)
    requires |ids| == |chunks|
    ensures var r := Covering(chunks, ids);
      && AllCovered(r) && (forall id :: id in ids ==> Numbers(r, id))
      && (forall c :: c in r.citations ==> CoveringCitation(r, c.citationId))
      && (chunks != [] ==> !NoCoveringCitation(r))
  {
    var r := Covering(chunks, ids);
    var s, row := r.sentences[0], r.coverage[0];
    assert s in r.sentences && row in r.coverage;
    assert Covers(r, "S1") && Names(r, "S1");
    forall id | id in ids ensures Numbers(r, id) {
      var i :| 0 <= i < |ids| && ids[i] == id;
      assert r.citations[i] in r.citations;
    }
    forall c | c in r.citations ensures CoveringCitation(r, c.citationId) {
      var i :| 0 <= i < |ids| && r.citations[i] == c;
      assert c.citationId == ids[i] && ids[i] in s.citationIds;
    }
  }

  lemma FullAnswerIsWellFormed(chunks: seq<Active>)
    ensures WellFormed(FullAnswer(chunks))
    ensures forall c :: c in FullAnswer(chunks).citations ==> CoveringCitation(FullAnswer(chunks), c.citationId)
    ensures chunks != [] ==> !NoCoveringCitation(FullAnswer(chunks))
  {
    CoveringShape(chunks, Ids(|chunks|));
    HasText("covered");
  }

  lemma HasText(text: string)
    requires text != "" && !Text.IsSpace(text[0])
    ensures !Text.Blank(text)
  {
    Text.BlankExactly(text);
  }

  lemma FullAnswerCites(chunks: seq<Active>, c: Active) returns (citation: Citation)
    requires c in chunks
    ensures citation in FullAnswer(chunks).citations && citation.recordId == c.recordId && citation.valuePath == c.valuePath
  {
    var i :| 0 <= i < |chunks| && chunks[i] == c;
    citation := FullAnswer(chunks).citations[i];
  }

  lemma CitesRecord(chunks: seq<Active>, paths: PathMap, id: string)
    requires ListsAll(chunks, paths, paths.Keys) && id in paths && paths[id] != {}
    ensures Cited(FullAnswer(chunks), id)
  {
    var p :| p in paths[id];
    var c := FullAnswerCites(chunks, Active(id, p));
  }

  lemma MatchesPrefix(chunks: seq<Active>, paths: PathMap, o: QueryOracle, proposed: Proposed, prefix: string)
    requires ListsAll(chunks, paths, paths.Keys) && o.required <= paths.Keys && !o.citeAllProposed
    requires Carried(paths, if o.required == {} then paths.Keys else o.required, prefix)
    ensures chunks != [] && PrefixMatched(FullAnswer(chunks), o, proposed, prefix)
  {
    var id, p :| id in (if o.required == {} then paths.Keys else o.required) && p in paths[id] && prefix <= p;
    FullAnswerIsWellFormed(chunks);
    var c := FullAnswerCites(chunks, Active(id, p));
  }

  lemma FullAnswerFromActive(chunks: seq<Active>, paths: PathMap)
    requires ListsAll(chunks, paths, paths.Keys)
    ensures FromActive(FullAnswer(chunks), paths)
  {
    forall c | c in FullAnswer(chunks).citations ensures c.recordId in paths && c.valuePath in paths[c.recordId] {
      var i :| 0 <= i < |chunks| && FullAnswer(chunks).citations[i] == c;
      assert chunks[i] in chunks;
    }
  }

  lemma MeetsOracle(r: Result, o: QueryOracle, proposed: Proposed)
    requires r.state == ANSWERED && o.expected == ANSWERED && !o.citeAllProposed
    requires forall id :: id in o.required ==> Cited(r, id)
    requires o.prefixes != [] ==> !NoCoveringCitation(r)
    requires forall k :: 0 <= k < |o.prefixes| ==> PrefixMatched(r, o, proposed, o.prefixes[k])
    ensures Satisfies(r, o, proposed)
  {
  }

  /** The answer that cites everything on one covering sentence meets whatever
      can be met. */
  lemma ReachableIsSatisfiable(o: QueryOracle, proposed: Proposed, paths: PathMap) returns (r: Result)
    requires o.expected == ANSWERED && !o.citeAllProposed && Populated(paths) && Reachable(o, paths)
    ensures WellFormed(r) && FromActive(r, paths) && Satisfies(r, o, proposed)
  {
    var chunks := ListEverything(paths, paths.Keys);
    r := FullAnswer(chunks);
    FullAnswerIsWellFormed(chunks);
    FullAnswerFromActive(chunks, paths);
    forall id | id in o.required ensures Cited(r, id) {
      CitesRecord(chunks, paths, id);
    }
    forall k | 0 <= k < |o.prefixes| ensures chunks != [] && PrefixMatched(r, o, proposed, o.prefixes[k]) {
      MatchesPrefix(chunks, paths, o, proposed, o.prefixes[k]);
    }
    assert o.prefixes != [] ==> PrefixMatched(r, o, proposed, o.prefixes[0]);
    MeetsOracle(r, o, proposed);
  }

  /** For an answering oracle that names a record, as every answering fixture of
      a manifest battery does, the check reports a problem exactly when no answer
      over the active chunks can meet the oracle. */
  lemma CheckIsExact(f: Fixture, proposed: Proposed, paths: PathMap)
    requires f.QueryFixture? && f.oracle.Some? && Populated(paths)
    requires f.oracle.value.expected == ANSWERED && !f.oracle.value.citeAllProposed && f.oracle.value.required != {}
    ensures ProblemsOf(f, paths) == [] <==> Satisfiable(f.oracle.value, proposed, paths)
  {
    var o := f.oracle.value;
    NoProblems(f, paths);
    assert o.required <= paths.Keys ==> o.required * paths.Keys == o.required;
    if Satisfiable(o, proposed, paths) {
      var r :| WellFormed(r) && FromActive(r, paths) && Satisfies(r, o, proposed);
      SatisfiableIsReachable(o, proposed, paths, r);
    }
    if ProblemsOf(f, paths) == [] {
      var r := ReachableIsSatisfiable(o, proposed, paths);
    }
  }

  /** Without a named record the check reports nothing, so it is exact only when
      every prefix is carried by some active chunk. */
  lemma UnnamedRecordIsExactWhen(f: Fixture, proposed: Proposed, paths: PathMap)
    requires f.QueryFixture? && f.oracle.Some? && Populated(paths)
    requires f.oracle.value.expected == ANSWERED && !f.oracle.value.citeAllProposed && f.oracle.value.required == {}
    ensures ProblemsOf(f, paths) == []
    ensures Satisfiable(f.oracle.value, proposed, paths) <==>
      forall k :: 0 <= k < |f.oracle.value.prefixes| ==> Carried(paths, paths.Keys, f.oracle.value.prefixes[k])
  {
    var o := f.oracle.value;
    NoProblems(f, paths);
    assert o.required * paths.Keys == {};
    if Satisfiable(o, proposed, paths) {
      var r :| WellFormed(r) && FromActive(r, paths) && Satisfies(r, o, proposed);
      SatisfiableIsReachable(o, proposed, paths, r);
    }
    if Reachable(o, paths) {
      var r := ReachableIsSatisfiable(o, proposed, paths);
    }
  }

  /** The two shapes of oracle the battery manifest loader builds. */
  ghost predicate LoaderShape(o: QueryOracle) {
    && o.coveringSentenceScope && !o.citeAllProposed
    && ((o.expected == ANSWERED && o.required != {} && o.expectedAbstention.None?)
        || (o.expected == ABSTAINED && o.required == {} && o.prefixes == [] && o.expectedAbstention.Some?))
  }

  /** An abstention with the named cause exists for either cause. */
  lemma AbstentionIsSatisfiable(o: QueryOracle, proposed: Proposed, paths: PathMap)
    requires o.expected == ABSTAINED && o.expectedAbstention.Some?
    ensures Satisfiable(o, proposed, paths)
  {
    var reason := if o.expectedAbstention.value.NoEmittedSentences? then AnswerLoop.NO_EMITTED_SENTENCE_REASON else "uncovered";
    var r := Result(ABSTAINED, Some(ClaimVerification), [], [], [Row(false, reason, [])]);
    HasText(reason);
    assert r.coverage[0].reason == reason && reason[0] in "un";
    assert WellFormed(r) && FromActive(r, paths) && Satisfies(r, o, proposed);
  }

  /** Over everything the loader can produce, the static check is exact. */
  lemma LoaderCheckIsExact(f: Fixture, proposed: Proposed, paths: PathMap)
    requires f.QueryFixture? && f.oracle.Some? && LoaderShape(f.oracle.value) && Populated(paths)
    ensures ProblemsOf(f, paths) == [] <==> Satisfiable(f.oracle.value, proposed, paths)
  {
    if f.oracle.value.expected == ANSWERED {
      CheckIsExact(f, proposed, paths);
    } else {
      NoProblems(f, paths);
      AbstentionIsSatisfiable(f.oracle.value, proposed, paths);
    }
  }
}
