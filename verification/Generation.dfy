/** The response validators of `infrastructure/openai_generation.py`: what a
    structured payload must satisfy before the query accepts it. */
module Generation {
  import opened Text
  import opened Ordering

  const MAX_FACETS: nat := 8
  const MAX_SENTENCES: nat := 12
  const MAX_CITED_CHUNKS: nat := 8

  /** A payload field: present with the expected type, or absent or ill typed. */
  datatype Field<T> = Typed(value: T) | IllTyped
  datatype Checked<T> = Accepted(value: T) | Invalid

  // ----- validate_facets -----

  datatype Facet = Facet(facetId: string, text: string)
  datatype RawFacet = RawFacet(id: Field<string>, text: Field<string>) | NotAnObject

  ghost predicate GoodFacet(item: RawFacet) {
    item.RawFacet? && item.id.Typed? && "F" <= item.id.value && item.text.Typed? && !Blank(item.text.value)
  }

  ghost function FacetOf(item: RawFacet): Facet
    requires GoodFacet(item)
  {
    Facet(item.id.value, StripChars(IsSpace, item.text.value))
  }

  /** The loop invariant of the facet loop, and at the end what acceptance means. */
  ghost predicate FacetsFrom(raw: seq<RawFacet>, facets: seq<Facet>) {
    && |facets| == |raw|
    && (forall i :: 0 <= i < |raw| ==> GoodFacet(raw[i]) && facets[i] == FacetOf(raw[i]))
    && (forall i, j :: 0 <= i < j < |facets| ==> facets[i].facetId != facets[j].facetId && facets[i].text != facets[j].text)
  }

  method ValidateFacets(payload: Field<seq<RawFacet>>) returns (result: Checked<seq<Facet>>)
    ensures result.Accepted? ==>
      payload.Typed? && 1 <= |payload.value| <= MAX_FACETS && FacetsFrom(payload.value, result.value)
    ensures result.Invalid? ==>
      payload.IllTyped? || !(1 <= |payload.value| <= MAX_FACETS) || forall facets :: !FacetsFrom(payload.value, facets)
  {
    if payload.IllTyped? || !(1 <= |payload.value| <= MAX_FACETS) {
      return Invalid;
    }
    var raw := payload.value;
    var facets: seq<Facet> := [];
    var ids, texts: set<string> := {}, {};
    for i := 0 to |raw|
      invariant FacetsFrom(raw[..i], facets)
      invariant ids == set f | f in facets :: f.facetId
      invariant texts == set f | f in facets :: f.text
    {
      assert raw[..i + 1] == raw[..i] + [raw[i]];
      var item := raw[i];
      if item.NotAnObject? || item.id.IllTyped? || !("F" <= item.id.value) {
        return Invalid;
      }
      if item.id.value in ids {
        return Invalid;
      }
      if item.text.IllTyped? || Blank(item.text.value) {
        return Invalid;
      }
      var text := StripChars(IsSpace, item.text.value);
      if text in texts {
        return Invalid;
      }
      ids, texts := ids + {item.id.value}, texts + {text};
      facets := facets + [Facet(item.id.value, text)];
    }
    assert raw[..|raw|] == raw;
    return Accepted(facets);
  }

  // ----- validate_draft -----

  datatype DraftSentence = DraftSentence(sentenceId: string, text: string, chunkIds: seq<string>)
  datatype RawSentence = RawSentence(id: Field<string>, text: Field<string>, chunkIds: Field<seq<Field<string>>>) | NotASentence

  /** `clean` strips chunk markers and `oneSentence` recognizes a single sentence. */
  ghost predicate GoodSentence(item: RawSentence, known: set<string>, clean: string -> string, oneSentence: string -> bool) {
    && item.RawSentence? && item.id.Typed? && "S" <= item.id.value
    && item.text.Typed? && clean(item.text.value) != "" && oneSentence(clean(item.text.value))
    && item.chunkIds.Typed? && 1 <= |item.chunkIds.value| <= MAX_CITED_CHUNKS
    && AllDistinct(item.chunkIds.value)
    && forall c :: c in item.chunkIds.value ==> c.Typed? && c.value in known
  }

  function TypedIds(ids: seq<Field<string>>): seq<string>
    requires forall c :: c in ids ==> c.Typed?
  {
    seq(|ids|, i requires 0 <= i < |ids| => ids[i].value)
  }

  function SentenceOf(item: RawSentence, clean: string -> string): DraftSentence
    requires item.RawSentence? && item.id.Typed? && item.text.Typed? && item.chunkIds.Typed?
    requires forall c :: c in item.chunkIds.value ==> c.Typed?
  {
    DraftSentence(item.id.value, clean(item.text.value), TypedIds(item.chunkIds.value))
  }

  ghost predicate DraftFrom(raw: seq<RawSentence>, known: set<string>, clean: string -> string,
                            oneSentence: string -> bool, draft: seq<DraftSentence>)
  {
    && |draft| == |raw|
    && (forall i :: 0 <= i < |raw| ==>
          GoodSentence(raw[i], known, clean, oneSentence) && draft[i] == SentenceOf(raw[i], clean))
    && (forall i, j :: 0 <= i < j < |draft| ==> draft[i].sentenceId != draft[j].sentenceId && draft[i].text != draft[j].text)
  }

  /** One more sentence, judged against the ids and texts taken so far. */
  ghost predicate Joins(item: RawSentence, draft: seq<DraftSentence>, known: set<string>, clean: string -> string,
                        oneSentence: string -> bool)
  {
    GoodSentence(item, known, clean, oneSentence)
    && forall s :: s in draft ==> s.sentenceId != item.id.value && s.text != clean(item.text.value)
  }

  /** The checks of one round of the loop. */
  method SentenceJoins(item: RawSentence, ids: set<string>, texts: set<string>, known: set<string>, clean: string -> string,
                       oneSentence: string -> bool, ghost draft: seq<DraftSentence>) returns (joins: bool)
    requires ids == (set s | s in draft :: s.sentenceId) && texts == (set s | s in draft :: s.text)
    ensures joins <==> Joins(item, draft, known, clean, oneSentence)
  {
    if item.NotASentence? || item.id.IllTyped? || !("S" <= item.id.value) {
      return false;
    }
    if item.id.value in ids || item.text.IllTyped? {
      return false;
    }
    var cleaned := clean(item.text.value);
    if cleaned == "" || !oneSentence(cleaned) || cleaned in texts {
      return false;
    }
    joins := CitationsAcceptable(item.chunkIds, known);
  }

  method ValidateDraft(payload: Field<seq<RawSentence>>, known: set<string>, clean: string -> string,
                       oneSentence: string -> bool) returns (result: Checked<seq<DraftSentence>>)
    ensures result.Accepted? ==>
      payload.Typed? && |payload.value| <= MAX_SENTENCES && DraftFrom(payload.value, known, clean, oneSentence, result.value)
    ensures result.Invalid? ==>
      payload.IllTyped? || |payload.value| > MAX_SENTENCES
      || forall draft :: !DraftFrom(payload.value, known, clean, oneSentence, draft)
  {
    if payload.IllTyped? || |payload.value| > MAX_SENTENCES {
      return Invalid;
    }
    var raw := payload.value;
    var draft: seq<DraftSentence> := [];
    var ids, texts: set<string> := {}, {};
    for i := 0 to |raw|
      invariant DraftFrom(raw[..i], known, clean, oneSentence, draft)
      invariant ids == set s | s in draft :: s.sentenceId
      invariant texts == set s | s in draft :: s.text
    {
      var item := raw[i];
      var joins := SentenceJoins(item, ids, texts, known, clean, oneSentence, draft);
      if !joins {
        NoDraftWithout(raw, i, draft, known, clean, oneSentence);
        return Invalid;
      }
      DraftGrows(raw, i, draft, known, clean, oneSentence);
      var sentence := SentenceOf(item, clean);
      ids, texts := ids + {sentence.sentenceId}, texts + {sentence.text};
      draft := draft + [sentence];
    }
    assert raw[..|raw|] == raw;
    return Accepted(draft);
  }

  lemma DraftGrows(raw: seq<RawSentence>, i: nat, draft: seq<DraftSentence>, known: set<string>, clean: string -> string,
                   oneSentence: string -> bool)
    requires i < |raw| && DraftFrom(raw[..i], known, clean, oneSentence, draft)
    requires Joins(raw[i], draft, known, clean, oneSentence)
    ensures DraftFrom(raw[..i + 1], known, clean, oneSentence, draft + [SentenceOf(raw[i], clean)])
  {
    assert raw[..i + 1] == raw[..i] + [raw[i]];
  }

  /** No draft at all comes from a payload with a sentence that cannot join. */
  lemma NoDraftWithout(raw: seq<RawSentence>, i: nat, draft: seq<DraftSentence>, known: set<string>, clean: string -> string,
                       oneSentence: string -> bool)
    requires i < |raw| && DraftFrom(raw[..i], known, clean, oneSentence, draft)
    requires !Joins(raw[i], draft, known, clean, oneSentence)
    ensures forall whole :: !DraftFrom(raw, known, clean, oneSentence, whole)
  {
    forall whole | DraftFrom(raw, known, clean, oneSentence, whole)
      ensures false
    {
      DraftsAgree(raw, i, draft, whole, known, clean, oneSentence);
    }
  }

  lemma DraftsAgree(raw: seq<RawSentence>, i: nat, draft: seq<DraftSentence>, whole: seq<DraftSentence>, known: set<string>,
                    clean: string -> string, oneSentence: string -> bool)
    requires i < |raw| && DraftFrom(raw[..i], known, clean, oneSentence, draft) && DraftFrom(raw, known, clean, oneSentence, whole)
    ensures Joins(raw[i], draft, known, clean, oneSentence)
  {
    forall s | s in draft
      ensures s.sentenceId != raw[i].id.value && s.text != clean(raw[i].text.value)
    {
      var k :| 0 <= k < |draft| && draft[k] == s;
      assert raw[..i][k] == raw[k];
      assert whole[k] == s && whole[i].sentenceId == raw[i].id.value;
    }
  }

  /** The citation checks on one sentence: count, repeats, known ids. */
  method CitationsAcceptable(chunkIds: Field<seq<Field<string>>>, known: set<string>) returns (ok: bool)
    ensures ok <==>
      && chunkIds.Typed? && 1 <= |chunkIds.value| <= MAX_CITED_CHUNKS && AllDistinct(chunkIds.value)
      && forall c :: c in chunkIds.value ==> c.Typed? && c.value in known
  {
    if chunkIds.IllTyped? || !(1 <= |chunkIds.value| <= MAX_CITED_CHUNKS) {
      return false;
    }
    var ids := chunkIds.value;
    var seen := {};
    for i := 0 to |ids|
      invariant seen == set c | c in ids[..i]
      invariant AllDistinct(ids[..i])
    {
      if ids[i] in seen {
        return false;
      }
      seen := seen + {ids[i]};
    }
    for i := 0 to |ids|
      invariant forall j :: 0 <= j < i ==> ids[j].Typed? && ids[j].value in known
    {
      assert ids[i] in chunkIds.value;
      if ids[i].IllTyped? || ids[i].value !in known {
        return false;
      }
    }
    assert ids[..|ids|] == ids;
    return true;
  }

  // ----- validate_coverage -----

  datatype CoverageRow = CoverageRow(facetId: string, covered: bool, reason: string, sentenceIds: seq<string>)
  datatype RawRow =
    | RawRow(facetId: Field<string>, covered: Field<bool>, reason: Field<string>, sentenceIds: Field<seq<string>>)
    | NotARow

  /** The position dictionary of the source: the last index an id stands at. */
  function KeptIndex(kept: seq<string>, id: string): (i: nat)
    requires id in kept
    ensures i < |kept| && kept[i] == id
  {
    if kept[|kept| - 1] == id then |kept| - 1 else KeptIndex(kept[..|kept| - 1], id)
  }

  /** `ids` names known sentences only, each once, in kept order. */
  predicate InKeptOrder(ids: seq<string>, kept: seq<string>) {
    && (forall i :: 0 <= i < |ids| ==> ids[i] in kept)
    && (forall i, j :: 0 <= i < j < |ids| ==> ids[i] != ids[j])
    && (forall i, j :: 0 <= i < j < |ids| ==> KeptIndex(kept, ids[i]) <= KeptIndex(kept, ids[j]))
  }

  /** Places of the ids in kept order. */
  ghost predicate AtPlaces(ids: seq<string>, kept: seq<string>, places: seq<nat>) {
    && |places| == |ids| && (forall i :: 0 <= i < |ids| ==> places[i] < |kept| && kept[places[i]] == ids[i])
    && (forall i, j :: 0 <= i < j < |ids| ==> places[i] < places[j])
  }

  /** Known, unrepeated and in kept order: a subsequence of the kept ids. */
  lemma InKeptOrderExactly(ids: seq<string>, kept: seq<string>)
    requires AllDistinct(kept)
    ensures InKeptOrder(ids, kept) <==> exists places :: AtPlaces(ids, kept, places)
  {
    if InKeptOrder(ids, kept) {
      var places := seq(|ids|, i requires 0 <= i < |ids| => KeptIndex(kept, ids[i]));
      assert AtPlaces(ids, kept, places);
    }
    if places :| AtPlaces(ids, kept, places) {
      forall i | 0 <= i < |ids| ensures ids[i] in kept && KeptIndex(kept, ids[i]) == places[i] {
        OnePlace(kept, places[i], KeptIndex(kept, ids[i]));
      }
    }
  }

  lemma OnePlace(kept: seq<string>, i: nat, j: nat)
    requires AllDistinct(kept) && i < |kept| && j < |kept| && kept[i] == kept[j]
    ensures i == j
  {
  }

  predicate GoodRow(item: RawRow, facet: Facet, kept: seq<string>) {
    && item.RawRow? && item.facetId == Typed(facet.facetId) && item.covered.Typed?
    && item.reason.Typed? && !Blank(item.reason.value)
    && item.sentenceIds.Typed? && InKeptOrder(item.sentenceIds.value, kept)
    && (item.covered.value <==> item.sentenceIds.value != [])
  }

  function RowOf(item: RawRow): CoverageRow
    requires item.RawRow? && item.facetId.Typed? && item.covered.Typed? && item.reason.Typed? && item.sentenceIds.Typed?
  {
    CoverageRow(item.facetId.value, item.covered.value, StripChars(IsSpace, item.reason.value), item.sentenceIds.value)
  }

  ghost predicate CoverageFrom(raw: seq<RawRow>, facets: seq<Facet>, kept: seq<string>, rows: seq<CoverageRow>)
    requires |raw| <= |facets|
  {
    |rows| == |raw| && forall i :: 0 <= i < |raw| ==> GoodRow(raw[i], facets[i], kept) && rows[i] == RowOf(raw[i])
  }

  /** What the coverage validator accepts. */
  ghost predicate CoverageAcceptable(payload: Field<seq<RawRow>>, facets: seq<Facet>, kept: seq<string>) {
    payload.Typed? && |payload.value| == |facets| && forall i :: 0 <= i < |facets| ==> GoodRow(payload.value[i], facets[i], kept)
  }

  method ValidateCoverage(payload: Field<seq<RawRow>>, facets: seq<Facet>, kept: seq<string>)
    returns (result: Checked<seq<CoverageRow>>)
    ensures result.Accepted? <==> CoverageAcceptable(payload, facets, kept)
    ensures result.Accepted? ==> CoverageFrom(payload.value, facets, kept, result.value)
  {
    if payload.IllTyped? || |payload.value| != |facets| {
      return Invalid;
    }
    var raw := payload.value;
    var rows: seq<CoverageRow> := [];
    for i := 0 to |raw|
      invariant CoverageFrom(raw[..i], facets, kept, rows)
    {
      assert raw[..i + 1] == raw[..i] + [raw[i]];
      var item := raw[i];
      if item.NotARow? || item.facetId != Typed(facets[i].facetId) || item.covered.IllTyped?
         || item.reason.IllTyped? || Blank(item.reason.value) || item.sentenceIds.IllTyped? {
        return Invalid;
      }
      if !InKeptOrder(item.sentenceIds.value, kept) {
        return Invalid;
      }
      if item.covered.value && item.sentenceIds.value == [] {
        return Invalid;
      }
      if !item.covered.value && item.sentenceIds.value != [] {
        return Invalid;
      }
      rows := rows + [RowOf(item)];
    }
    assert raw[..|raw|] == raw;
    return Accepted(rows);
  }
}
