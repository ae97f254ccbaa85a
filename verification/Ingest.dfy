/** The ingest run of `application/ingest.py`: the plan, one entry at a time,
    removals, the two gates, activation, and old vectors last. */
module Ingest {
  import opened IndexStore
  import opened Ordering
  import opened Options

  // ----- Inputs -----

  datatype Entry = Entry(id: string, fingerprint: string, recordDigest: string, entryDigest: string)

  datatype Record = Record(id: string, supersedes: Option<string>, content: string)

  datatype Slot = Slot(valuePath: string, ordinal: nat)

  datatype Chunked = Chunked(slots: seq<Slot>) | ChunkingError

  /** Everything a run is given: files, digests, chunking and the provider. */
  datatype Dependencies = Dependencies(
    readRecord: string -> Option<Record>,
    recordDigest: Record -> string,
    entryDigest: Entry -> string,
    missingProvenance: (Record, Entry) -> bool,
    chunkRecord: (Record, Entry) -> Chunked,
    embeds: (Record, seq<Slot>) -> bool,
    hasApiKey: bool)

  /** Record files are named after the record they hold. */
  ghost predicate FiledById(deps: Dependencies) {
    forall id :: deps.readRecord(id).Some? ==> deps.readRecord(id).value.id == id
  }

  predicate DistinctIds(entries: seq<Entry>) {
    forall i, j :: 0 <= i < j < |entries| ==> entries[i].id != entries[j].id
  }

  function Lookup(states: map<string, RecordState>, id: string): Option<RecordState> {
    if id in states then Some(states[id]) else None
  }

  // ----- The fate of an entry -----

  datatype Fate = Unchanged | Rejected(code: string) | Written(record: Record, slots: seq<Slot>)

  /** Current with the manifest's fingerprint: nothing to embed. */
  predicate UpToDate(existing: Option<RecordState>, e: Entry) {
    existing.Some? && existing.value.state == Current && existing.value.active == Some(e.fingerprint)
  }

  function FateOfCurrent(deps: Dependencies, e: Entry): Fate {
    var read := deps.readRecord(e.id);
    if read.None? then Rejected("record.unreadable")
    else if deps.recordDigest(read.value) != e.recordDigest then Rejected("digest.record_mismatch")
    else if deps.missingProvenance(read.value, e) then Rejected("provenance.missing")
    else Unchanged
  }

  function FateOfChanged(deps: Dependencies, e: Entry): Fate {
    var read := deps.readRecord(e.id);
    if read.None? then Rejected("record.unreadable")
    else if deps.recordDigest(read.value) != e.recordDigest then Rejected("digest.record_mismatch")
    else if deps.entryDigest(e) != e.entryDigest then Rejected("digest.entry_mismatch")
    else if deps.missingProvenance(read.value, e) then Rejected("provenance.missing")
    else
      var chunks := deps.chunkRecord(read.value, e);
      if chunks.ChunkingError? then Rejected("chunking.oversize")
      else if !deps.embeds(read.value, chunks.slots) then Rejected("provider.embedding")
      else Written(read.value, chunks.slots)
  }

  function FateOf(deps: Dependencies, states: map<string, RecordState>, e: Entry): Fate {
    if UpToDate(Lookup(states, e.id), e) then FateOfCurrent(deps, e) else FateOfChanged(deps, e)
  }

  /** The state row says the entry's version is the one indexed. */
  ghost predicate IsIndexed(states: map<string, RecordState>, e: Entry) {
    e.id in states && states[e.id].state == Current && states[e.id].active == Some(e.fingerprint)
  }

  /** The record file can be read, is the one in the manifest, and names its sources. */
  ghost predicate FileIsGood(deps: Dependencies, e: Entry) {
    var read := deps.readRecord(e.id);
    read.Some? && deps.recordDigest(read.value) == e.recordDigest && !deps.missingProvenance(read.value, e)
  }

  /** An entry is left alone exactly when its version is indexed and its file is
      good, and written exactly when its version is not indexed, its file and its
      manifest entry are good, and every chunk could be made and embedded. */
  lemma FateExactly(deps: Dependencies, states: map<string, RecordState>, e: Entry)
    ensures var fate, read := FateOf(deps, states, e), deps.readRecord(e.id);
      && (fate.Unchanged? <==> IsIndexed(states, e) && FileIsGood(deps, e))
      && (fate.Written? <==>
            && !IsIndexed(states, e) && FileIsGood(deps, e) && deps.entryDigest(e) == e.entryDigest
            && var chunked := deps.chunkRecord(read.value, e); chunked.Chunked? && deps.embeds(read.value, chunked.slots))
      && (fate.Written? ==> fate.record == read.value && fate.slots == deps.chunkRecord(read.value, e).slots)
  {
  }

  /** A rejection names the first check that failed. */
  lemma RejectionExactly(deps: Dependencies, states: map<string, RecordState>, e: Entry)
    requires FateOf(deps, states, e).Rejected?
    ensures var code, read := FateOf(deps, states, e).code, deps.readRecord(e.id);
      && (code == "record.unreadable" <==> read.None?)
      && (code == "digest.record_mismatch" <==> read.Some? && deps.recordDigest(read.value) != e.recordDigest)
      && (code == "digest.entry_mismatch" <==>
            read.Some? && deps.recordDigest(read.value) == e.recordDigest
            && !IsIndexed(states, e) && deps.entryDigest(e) != e.entryDigest)
      && (code == "provenance.missing" <==>
            && read.Some? && deps.recordDigest(read.value) == e.recordDigest && deps.missingProvenance(read.value, e)
            && (IsIndexed(states, e) || deps.entryDigest(e) == e.entryDigest))
      && (code == "chunking.oversize" <==>
            && FileIsGood(deps, e) && !IsIndexed(states, e) && deps.entryDigest(e) == e.entryDigest
            && deps.chunkRecord(read.value, e).ChunkingError?)
      && (code == "provider.embedding" <==>
            && FileIsGood(deps, e) && !IsIndexed(states, e) && deps.entryDigest(e) == e.entryDigest
            && deps.chunkRecord(read.value, e).Chunked? && !deps.embeds(read.value, deps.chunkRecord(read.value, e).slots))
  {
    CodesDiffer();
  }

  lemma CodesDiffer()
    ensures "record.unreadable"[0] == 'r' && "digest.record_mismatch"[7] == 'r' && "digest.entry_mismatch"[7] == 'e'
    ensures "digest.record_mismatch"[0] == 'd' && "digest.entry_mismatch"[0] == 'd' && "chunking.oversize"[0] == 'c'
    ensures "provider.embedding"[0] == 'p' && "provider.embedding"[4] == 'i' && "provenance.missing"[0] == 'p' && "provenance.missing"[4] == 'e'
  {
  }

  function Locators(generation: string, record: string, fingerprint: string, slots: seq<Slot>): (chunks: seq<Locator>)
    ensures |chunks| == |slots| && forall l :: l in chunks ==> l.record == record
  {
    seq(|slots|, i requires 0 <= i < |slots| => Locator(generation, record, fingerprint, slots[i].valuePath, slots[i].ordinal))
  }

  /** The chunk ids whose vectors go after activation: those the record owned
      before it was written again. */
  function OldIds(deps: Dependencies, states: map<string, RecordState>, rows: Table, e: Entry): set<string> {
    if FateOf(deps, states, e).Written? then Owned(rows, e.id) else {}
  }

  /** No entry is written over rows its record already has. */
  ghost predicate NothingReplaced(deps: Dependencies, states: map<string, RecordState>, rows: Table, entries: seq<Entry>) {
    forall e :: e in entries ==> OldIds(deps, states, rows, e) == {}
  }

  /** In terms of rows: no written entry's record has one. */
  lemma NothingReplacedExactly(deps: Dependencies, states: map<string, RecordState>, rows: Table, entries: seq<Entry>)
    ensures NothingReplaced(deps, states, rows, entries) <==>
      forall e, c :: e in entries && FateOf(deps, states, e).Written? && c in rows ==> rows[c].record != e.id
  {
    if NothingReplaced(deps, states, rows, entries) {
      forall e, c | e in entries && FateOf(deps, states, e).Written? && c in rows ensures rows[c].record != e.id {
        assert c !in OldIds(deps, states, rows, e);
      }
    }
  }

  // ----- The plan -----

  ghost predicate NeedsProvider(entries: seq<Entry>, states: map<string, RecordState>, rebuild: bool) {
    exists e :: e in entries && (rebuild || !UpToDate(Lookup(states, e.id), e))
  }

  /** `_plan_needs_provider`. */
  method PlanNeedsProvider(entries: seq<Entry>, states: map<string, RecordState>, rebuild: bool) returns (needs: bool)
    ensures needs <==> NeedsProvider(entries, states, rebuild)
  {
    if entries == [] {
      return false;
    }
    if rebuild {
      assert entries[0] in entries;
      return true;
    }
    for i := 0 to |entries|
      invariant forall j :: 0 <= j < i ==> UpToDate(Lookup(states, entries[j].id), entries[j])
    {
      if !UpToDate(Lookup(states, entries[i].id), entries[i]) {
        assert entries[i] in entries;
        return true;
      }
    }
    return false;
  }

  /** `sorted(manifest.entries, key=lambda item: item.id)`. */
  predicate IdLt(a: Entry, b: Entry) {
    StrLt(a.id, b.id)
  }

  lemma SortedEntries(entries: seq<Entry>)
    requires DistinctIds(entries)
    ensures forall e :: e in Sort(IdLt, entries) <==> e in entries
    ensures DistinctIds(Sort(IdLt, entries))
  {
    forall a: Entry ensures !IdLt(a, a) {
      StrLtTotal(a.id, a.id);
    }
    forall a: Entry, b, c | IdLt(a, b) && IdLt(b, c) ensures IdLt(a, c) {
      StrLtTransitive(a.id, b.id, c.id);
    }
    forall i, j | 0 <= i < |entries| && 0 <= j < |entries| && i != j
      ensures IdLt(entries[i], entries[j]) || IdLt(entries[j], entries[i])
    {
      StrLtTotal(entries[i].id, entries[j].id);
      var lo, hi := if i < j then i else j, if i < j then j else i;
      assert entries[lo].id != entries[hi].id;
    }
    SortElements(IdLt, entries);
    SortSorts(IdLt, entries);
    var r := Sort(IdLt, entries);
    forall i, j | 0 <= i < j < |r| ensures r[i].id != r[j].id {
      assert IdLt(r[i], r[j]);
      StrLtTotal(r[i].id, r[i].id);
    }
  }

  /** An embedding call is made for this entry: it is out of date, its files are
      good, and it has chunks. */
  ghost predicate CallsProvider(deps: Dependencies, states: map<string, RecordState>, e: Entry) {
    && !IsIndexed(states, e) && FileIsGood(deps, e) && deps.entryDigest(e) == e.entryDigest
    && var chunked := deps.chunkRecord(deps.readRecord(e.id).value, e); chunked.Chunked? && chunked.slots != []
  }

  ghost predicate AnyCalls(deps: Dependencies, states: map<string, RecordState>, entries: seq<Entry>) {
    exists e :: e in entries && CallsProvider(deps, states, e)
  }

  lemma CallsNeedProvider(deps: Dependencies, states: map<string, RecordState>, entries: seq<Entry>)
    ensures AnyCalls(deps, states, entries) ==> NeedsProvider(entries, states, false)
  {
    if AnyCalls(deps, states, entries) {
      var e :| e in entries && CallsProvider(deps, states, e);
      assert !UpToDate(Lookup(states, e.id), e);
    }
  }

  // ----- One entry -----

  /** What an entry leaves behind: its result and the chunk ids to delete. */
  datatype EntryResult = EntryResult(fate: Fate, oldIds: set<string>)

  function ResultOf(deps: Dependencies, states: map<string, RecordState>, rows: Table, e: Entry): EntryResult {
    EntryResult(FateOf(deps, states, e), OldIds(deps, states, rows, e))
  }

  /** The run's inputs to one entry: names, hashes, files, and the states read
      before the run. */
  datatype Plan = Plan(deps: Dependencies, chunkId: Locator -> string, generation: string, states: map<string, RecordState>)

  function Chunks(plan: Plan, e: Entry, slots: seq<Slot>): Table {
    Placed(plan.chunkId, Locators(plan.generation, e.id, e.fingerprint, slots))
  }

  /** A record without chunks is filed under its digest instead. */
  function StoredFingerprint(deps: Dependencies, e: Entry, record: Record, slots: seq<Slot>): string {
    if slots != [] then e.fingerprint else deps.recordDigest(record)
  }

  function PriorFingerprint(states: map<string, RecordState>, id: string): Fingerprint {
    if id in states then states[id].active else None
  }

  /** What one entry makes of the opened generation. */
  function Applied(plan: Plan, g: Generation, e: Entry): Generation {
    match FateOf(plan.deps, plan.states, e)
    case Unchanged => g
    case Rejected(_) =>
      Failed(g, e.id, RecordState(FailedState, Some(e.fingerprint), PriorFingerprint(plan.states, e.id)))
    case Written(record, slots) =>
      Stored(g, e.id, Some(StoredFingerprint(plan.deps, e, record, slots)), record.supersedes, Chunks(plan, e, slots))
  }

  function AllApplied(plan: Plan, g: Generation, entries: seq<Entry>): Generation {
    if entries == [] then g
    else Applied(plan, AllApplied(plan, g, entries[..|entries| - 1]), entries[|entries| - 1])
  }

  /** `_ingest_entry`. `called`: an embedding call was made. */
  method IngestEntry(ghost plan: Plan, deps: Dependencies, writer: IndexWriter, e: Entry, existing: Option<RecordState>)
    returns (result: EntryResult, called: bool)
    requires writer.Valid() && Injective(writer.chunkId) && writer.store.active == writer.base.active && FiledById(deps)
    requires plan == Plan(deps, writer.chunkId, writer.open, plan.states) && existing == Lookup(plan.states, e.id)
    modifies writer`store, writer`step, writer`history
    ensures writer.Valid() && writer.Continues()
    ensures writer.Gen() == Applied(plan, old(writer.Gen()), e)
    ensures result == ResultOf(deps, plan.states, old(writer.Gen().rows), e)
    ensures called <==> CallsProvider(deps, plan.states, e)
  {
    called := false;
    var fate: Fate;
    var oldIds := {};
    var prior := if existing.Some? then existing.value.active else None;
    var read := deps.readRecord(e.id);
    if UpToDate(existing, e) {
      fate := FateOfCurrent(deps, e);
    } else if read.None? {
      fate := Rejected("record.unreadable");
    } else if deps.recordDigest(read.value) != e.recordDigest {
      fate := Rejected("digest.record_mismatch");
    } else if deps.entryDigest(e) != e.entryDigest {
      fate := Rejected("digest.entry_mismatch");
    } else if deps.missingProvenance(read.value, e) {
      fate := Rejected("provenance.missing");
    } else {
      var chunked := deps.chunkRecord(read.value, e);
      if chunked.ChunkingError? {
        fate := Rejected("chunking.oversize");
      } else {
        called := chunked.slots != [];
        fate := if deps.embeds(read.value, chunked.slots) then Written(read.value, chunked.slots) else Rejected("provider.embedding");
      }
    }
    if fate.Written? {
      var chunks := Locators(writer.open, read.value.id, e.fingerprint, fate.slots);
      var fingerprint := if chunks != [] then e.fingerprint else deps.recordDigest(read.value);
      oldIds := writer.WriteRecord(read.value.id, chunks, fingerprint, read.value.supersedes);
    } else if fate.Rejected? {
      writer.MarkFailed(e.id, RecordState(FailedState, Some(e.fingerprint), prior));
    }
    result := EntryResult(fate, oldIds);
  }

  // ----- All entries -----

  /** The rows after the entries: those before, and more for written records. */
  ghost predicate Grown(entries: seq<Entry>, before: Table, rows: Table) {
    && (forall c :: c in before ==> c in rows && rows[c] == before[c])
    && (forall c :: c in rows && c !in before ==> exists e :: e in entries && e.id == rows[c].record)
  }

  lemma GrownStep(chunkId: Locator -> string, front: seq<Entry>, e: Entry, before: Table, rows: Table, chunks: seq<Locator>)
    requires Grown(front, before, rows) && forall l :: l in chunks ==> l.record == e.id
    requires Injective(chunkId) && Keyed(chunkId, rows)
    ensures Grown(front + [e], before, rows + Placed(chunkId, chunks)) && Keyed(chunkId, rows + Placed(chunkId, chunks))
  {
    var placed := Placed(chunkId, chunks);
    PlacedEntries(chunkId, chunks);
    forall c | c in rows + placed && c !in before ensures exists x :: x in front + [e] && x.id == (rows + placed)[c].record {
      if c in placed {
        assert e in front + [e];
      } else {
        var x :| x in front && x.id == rows[c].record;
        assert x in front + [e];
      }
    }
  }

  lemma AppliedGrows(plan: Plan, g: Generation, front: seq<Entry>, e: Entry, before: Table)
    requires Grown(front, before, g.rows) && Injective(plan.chunkId) && Keyed(plan.chunkId, g.rows)
    ensures Grown(front + [e], before, Applied(plan, g, e).rows) && Keyed(plan.chunkId, Applied(plan, g, e).rows)
  {
    var fate := FateOf(plan.deps, plan.states, e);
    if fate.Written? {
      GrownStep(plan.chunkId, front, e, before, g.rows, Locators(plan.generation, e.id, e.fingerprint, fate.slots));
    } else {
      GrownStep(plan.chunkId, front, e, before, g.rows, []);
      assert g.rows + map[] == g.rows;
    }
  }

  lemma {:induction false} AllAppliedGrows(plan: Plan, g: Generation, entries: seq<Entry>)
    requires Injective(plan.chunkId) && Keyed(plan.chunkId, g.rows)
    ensures Grown(entries, g.rows, AllApplied(plan, g, entries).rows)
    ensures Keyed(plan.chunkId, AllApplied(plan, g, entries).rows)
  {
    if entries != [] {
      var front := entries[..|entries| - 1];
      AllAppliedGrows(plan, g, front);
      AppliedGrows(plan, AllApplied(plan, g, front), front, entries[|entries| - 1], g.rows);
      assert entries == front + [entries[|entries| - 1]];
    }
  }

  /** A record not written yet owns what it owned before the run. */
  lemma OwnedUnchanged(plan: Plan, g: Generation, entries: seq<Entry>, id: string)
    requires Injective(plan.chunkId) && Keyed(plan.chunkId, g.rows)
    requires forall e :: e in entries ==> e.id != id
    ensures Owned(AllApplied(plan, g, entries).rows, id) == Owned(g.rows, id)
  {
    AllAppliedGrows(plan, g, entries);
  }

  ghost predicate Results(plan: Plan, before: Table, entries: seq<Entry>, results: seq<EntryResult>) {
    |results| == |entries| && forall i :: 0 <= i < |entries| ==> results[i] == ResultOf(plan.deps, plan.states, before, entries[i])
  }

  method IngestNext(ghost plan: Plan, deps: Dependencies, writer: IndexWriter, entries: seq<Entry>, i: nat,
                    states: map<string, RecordState>, ghost g: Generation)
    returns (result: EntryResult, called: bool)
    requires writer.Valid() && Injective(writer.chunkId) && writer.store.active == writer.base.active && FiledById(deps)
    requires plan == Plan(deps, writer.chunkId, writer.open, states) && DistinctIds(entries) && Keyed(plan.chunkId, g.rows)
    requires i < |entries| && writer.Gen() == AllApplied(plan, g, entries[..i])
    modifies writer`store, writer`step, writer`history
    ensures writer.Valid() && writer.Continues()
    ensures writer.Gen() == AllApplied(plan, g, entries[..i + 1])
    ensures result == ResultOf(deps, states, g.rows, entries[i])
    ensures called <==> CallsProvider(deps, states, entries[i])
  {
    var e := entries[i];
    OwnedUnchanged(plan, g, entries[..i], e.id);
    result, called := IngestEntry(plan, deps, writer, e, Lookup(states, e.id));
    assert entries[..i + 1][..i] == entries[..i];
  }

  method IngestEntries(ghost plan: Plan, deps: Dependencies, writer: IndexWriter, entries: seq<Entry>, states: map<string, RecordState>,
                       ghost g: Generation)
    returns (results: seq<EntryResult>, called: bool)
    requires writer.Valid() && Injective(writer.chunkId) && writer.store.active == writer.base.active && FiledById(deps)
    requires plan == Plan(deps, writer.chunkId, writer.open, states) && DistinctIds(entries) && g == writer.Gen()
    modifies writer`store, writer`step, writer`history
    ensures writer.Valid() && writer.Continues()
    ensures writer.Gen() == AllApplied(plan, g, entries)
    ensures Results(plan, g.rows, entries, results)
    ensures called <==> AnyCalls(deps, states, entries)
  {
    results, called := [], false;
    assert Keyed(plan.chunkId, g.rows);
    for i := 0 to |entries|
      invariant writer.Valid() && writer.Continues()
      invariant writer.Gen() == AllApplied(plan, g, entries[..i])
      invariant Results(plan, g.rows, entries[..i], results)
      invariant called <==> AnyCalls(deps, states, entries[..i])
    {
      assert entries[..i + 1] == entries[..i] + [entries[i]];
      var result, sent := IngestNext(plan, deps, writer, entries, i, states, g);
      ResultsNext(plan, g.rows, entries, i, results, result);
      results := results + [result];
      called := called || sent;
    }
    assert entries[..|entries|] == entries;
  }

  lemma ResultsNext(plan: Plan, rows: Table, entries: seq<Entry>, i: nat, results: seq<EntryResult>, result: EntryResult)
    requires i < |entries| && Results(plan, rows, entries[..i], results)
    requires result == ResultOf(plan.deps, plan.states, rows, entries[i])
    ensures Results(plan, rows, entries[..i + 1], results + [result])
  {}

  // ----- Removals -----

  /** The records of the store that left the manifest. */
  function Departed(ids: set<string>, states: map<string, RecordState>): set<string> {
    set r | r in states && r !in ids && states[r].state != RemovedState
  }

  /** A record departs when the store knows it, has not removed it, and the
      manifest does not name it. */
  lemma DepartedExactly(manifest: seq<Entry>, states: map<string, RecordState>, id: string)
    ensures id in Departed(Ids(manifest), states) <==>
      id in states && states[id].state != RemovedState && forall e :: e in manifest ==> e.id != id
  {
    assert id in Ids(manifest) <==> exists e :: e in manifest && e.id == id;
  }

  /** Departed records keep a tombstone and nothing else. */
  function Swept(g: Generation, states: map<string, RecordState>, departed: set<string>): Generation {
    g.(rows := map c | c in g.rows && g.rows[c].record !in departed :: g.rows[c],
       states := map r | r in g.states.Keys + departed ::
                   if r in departed then RecordState(RemovedState, PriorFingerprint(states, r), None) else g.states[r],
       snapshots := g.snapshots - departed)
  }

  lemma SweptStep(g: Generation, pending: Generation, states: map<string, RecordState>, departed: set<string>, record: string)
    requires pending.states - {record} == Swept(g, states, departed).states - {record}
    requires pending.rows == Swept(g, states, departed).rows && pending.snapshots == Swept(g, states, departed).snapshots
    requires record in states
    ensures var d := Dropped(pending, record, states[record].active);
      && d.rows == Swept(g, states, departed + {record}).rows
      && d.states == Swept(g, states, departed + {record}).states
      && d.snapshots == Swept(g, states, departed + {record}).snapshots
  {
    var d, w := Dropped(pending, record, states[record].active), Swept(g, states, departed + {record});
    forall r ensures Lookup(d.states, r) == Lookup(w.states, r) {
      var before := Swept(g, states, departed);
      if r != record {
        assert r in pending.states <==> r in pending.states - {record};
        assert r in before.states <==> r in before.states - {record};
        assert r in before.states ==> (before.states - {record})[r] == before.states[r] && (pending.states - {record})[r] == pending.states[r];
      }
    }
    assert forall r :: r in d.states <==> Lookup(d.states, r).Some?;
    assert forall r :: r in w.states <==> Lookup(w.states, r).Some?;
    assert d.states == w.states;
  }

  /** The loop over the states the store had before the run. */
  method RemoveAbsent(writer: IndexWriter, states: map<string, RecordState>, ids: set<string>)
    requires writer.Valid() && writer.store.active == writer.base.active
    modifies writer`store, writer`step, writer`history
    ensures writer.Valid() && writer.Continues()
    ensures writer.Gen() == Swept(old(writer.Gen()), states, Departed(ids, states)).(vectors := writer.Gen().vectors)
  {
    ghost var g := writer.Gen();
    var todo := states.Keys;
    ghost var done: set<string> := {};
    SweptNone(g, states);
    while todo != {}
      invariant todo <= states.Keys && done == Departed(ids, states) - todo
      invariant writer.Valid() && writer.Continues()
      invariant writer.Gen() == Swept(g, states, done).(vectors := writer.Gen().vectors)
    {
      var record :| record in todo;
      todo := todo - {record};
      if record !in ids && states[record].state != RemovedState {
        writer.MarkPending(record, RecordState(PendingRemoval, states[record].desired, states[record].active));
        SweptStep(g, writer.Gen(), states, done, record);
        writer.RemoveRecord(record, states[record].active);
        done := done + {record};
      }
    }
    assert done == Departed(ids, states);
  }

  lemma SweptNone(g: Generation, states: map<string, RecordState>)
    ensures Swept(g, states, {}) == g
  {
    assert g.snapshots - {} == g.snapshots;
  }

  // ----- Old vectors last -----

  function Replaced(results: seq<EntryResult>): set<string> {
    if results == [] then {} else Replaced(results[..|results| - 1]) + results[|results| - 1].oldIds
  }

  lemma {:induction false} ReplacedMembers(results: seq<EntryResult>)
    ensures forall c :: c in Replaced(results) <==> exists i :: 0 <= i < |results| && c in results[i].oldIds
  {
    if results != [] {
      var front := results[..|results| - 1];
      ReplacedMembers(front);
      forall c ensures c in Replaced(results) <==> exists i :: 0 <= i < |results| && c in results[i].oldIds {
        if c in Replaced(front) {
          var i :| 0 <= i < |front| && c in front[i].oldIds;
          assert results[i] == front[i];
        }
        if i :| 0 <= i < |results| && c in results[i].oldIds {
          assert i < |front| ==> front[i] == results[i];
        }
      }
    }
  }

  method DeleteAllOld(writer: IndexWriter, results: seq<EntryResult>)
    requires writer.open in writer.store.generations && |writer.history| > 0
    requires writer.history[|writer.history| - 1] == writer.store
    modifies writer`store, writer`step, writer`history
    ensures writer.open in writer.store.generations
    ensures writer.store.active == old(writer.store.active) && old(writer.history) <= writer.history
    ensures writer.history[|writer.history| - 1] == writer.store
    ensures writer.store.generations - {writer.open} == old(writer.store.generations) - {writer.open}
    ensures writer.Gen() == old(writer.Gen()).(vectors := writer.Gen().vectors)
    ensures forall c :: c in writer.Gen().vectors ==> c in old(writer.Gen().vectors)
    ensures forall c :: c in old(writer.Gen().vectors) && c !in Replaced(results)
                    ==> c in writer.Gen().vectors && writer.Gen().vectors[c] == old(writer.Gen().vectors)[c]
    ensures (forall n, c :: writer.gone(n)(c)) ==> forall c :: c in Replaced(results) ==> c !in writer.Gen().vectors
    ensures Replaced(results) == {} ==> writer.history == old(writer.history)
  {
    ghost var vectors := writer.Gen().vectors;
    assert results[..0] == [];
    for i := 0 to |results|
      invariant writer.open in writer.store.generations && |writer.history| > 0
      invariant writer.history[|writer.history| - 1] == writer.store
      invariant writer.store.active == old(writer.store.active) && old(writer.history) <= writer.history
      invariant writer.store.generations - {writer.open} == old(writer.store.generations) - {writer.open}
      invariant writer.Gen() == old(writer.Gen()).(vectors := writer.Gen().vectors)
      invariant forall c :: c in writer.Gen().vectors ==> c in vectors
      invariant forall c :: c in vectors && c !in Replaced(results[..i])
                        ==> c in writer.Gen().vectors && writer.Gen().vectors[c] == vectors[c]
      invariant (forall n, c :: writer.gone(n)(c)) ==> forall c :: c in Replaced(results[..i]) ==> c !in writer.Gen().vectors
      invariant Replaced(results[..i]) == {} ==> writer.history == old(writer.history)
    {
      writer.DeleteOldVectors(results[i].oldIds);
      assert results[..i + 1][..i] == results[..i];
    }
    assert results[..|results|] == results;
  }

  // ----- The run -----

  datatype Outcome = Refused(code: string) | SupersessionInvalid | ParityFailed | Done(partial: bool)

  ghost predicate AnyRejected(deps: Dependencies, states: map<string, RecordState>, entries: seq<Entry>) {
    exists e :: e in entries && FateOf(deps, states, e).Rejected?
  }

  function Ids(manifest: seq<Entry>): set<string> {
    set e | e in manifest :: e.id
  }

  /** The chunk ids to delete are rows of replaced versions. */
  lemma ReplacedAreOldRows(plan: Plan, before: Table, manifest: seq<Entry>,
                           entries: seq<Entry>, results: seq<EntryResult>)
    requires Results(plan, before, entries, results) && forall e :: e in entries ==> e in manifest
    ensures forall c :: c in Replaced(results) ==> c in before && before[c].record in Ids(manifest)
  {
    ReplacedMembers(results);
    forall c | c in Replaced(results) ensures c in before && before[c].record in Ids(manifest) {
      var i :| 0 <= i < |results| && c in results[i].oldIds;
      assert entries[i] in manifest;
    }
  }

  lemma ReplacedEmptyExactly(plan: Plan, before: Table, manifest: seq<Entry>,
                             entries: seq<Entry>, results: seq<EntryResult>)
    requires Results(plan, before, entries, results) && forall e :: e in entries <==> e in manifest
    ensures Replaced(results) == {} <==> NothingReplaced(plan.deps, plan.states, before, manifest)
  {
    ReplacedMembers(results);
    forall e, c | e in manifest && c in OldIds(plan.deps, plan.states, before, e) ensures c in Replaced(results) {
      var i :| 0 <= i < |entries| && entries[i] == e;
      assert c in results[i].oldIds;
    }
    forall c | c in Replaced(results) ensures !NothingReplaced(plan.deps, plan.states, before, manifest) {
      var i :| 0 <= i < |results| && c in results[i].oldIds;
      assert entries[i] in manifest && c in OldIds(plan.deps, plan.states, before, entries[i]);
    }
  }

  lemma RejectedExactly(plan: Plan, before: Table, manifest: seq<Entry>,
                        entries: seq<Entry>, results: seq<EntryResult>)
    requires Results(plan, before, entries, results) && forall e :: e in entries <==> e in manifest
    ensures (exists i :: 0 <= i < |results| && results[i].fate.Rejected?) <==> AnyRejected(plan.deps, plan.states, manifest)
  {
    forall e | e in manifest && FateOf(plan.deps, plan.states, e).Rejected?
      ensures exists i :: 0 <= i < |results| && results[i].fate.Rejected?
    {
      var i :| 0 <= i < |entries| && entries[i] == e;
      assert results[i].fate.Rejected?;
    }
    forall i | 0 <= i < |results| && results[i].fate.Rejected? ensures AnyRejected(plan.deps, plan.states, manifest) {
      assert entries[i] in manifest;
    }
  }

  method AnyFailed(results: seq<EntryResult>) returns (failed: bool)
    ensures failed <==> exists i :: 0 <= i < |results| && results[i].fate.Rejected?
  {
    for i := 0 to |results|
      invariant forall j :: 0 <= j < i ==> !results[j].fate.Rejected?
    {
      if results[i].fate.Rejected? { return true; }
    }
    return false;
  }

  /** What a run makes of the generation it opens, vectors and links aside. */
  function Contents(plan: Plan, g: Generation, manifest: seq<Entry>): Generation {
    Swept(AllApplied(plan, g, Sort(IdLt, manifest)), plan.states, Departed(Ids(manifest), plan.states))
  }

  lemma {:induction false} AppliedSignature(plan: Plan, g: Generation, entries: seq<Entry>)
    ensures AllApplied(plan, g, entries).signature == g.signature
  {
    if entries != [] { AppliedSignature(plan, g, entries[..|entries| - 1]); }
  }

  lemma ContentsSignature(plan: Plan, g: Generation, manifest: seq<Entry>)
    ensures Contents(plan, g, manifest).signature == g.signature
  {
    AppliedSignature(plan, g, Sort(IdLt, manifest));
  }

  lemma ReplacedStayRows(plan: Plan, g: Generation, manifest: seq<Entry>, replaced: set<string>)
    requires Injective(plan.chunkId) && Keyed(plan.chunkId, g.rows)
    requires forall c :: c in replaced ==> c in g.rows && g.rows[c].record in Ids(manifest)
    ensures forall c :: c in replaced ==> c in Contents(plan, g, manifest).rows
  {
    AllAppliedGrows(plan, g, Sort(IdLt, manifest));
  }

  /** Entries, removals and orphans: the contents of the opened generation. */
  method Populate(ghost plan: Plan, deps: Dependencies, writer: IndexWriter, manifest: seq<Entry>, states: map<string, RecordState>,
                  ghost g: Generation)
    returns (results: seq<EntryResult>, called: bool)
    requires writer.Valid() && Injective(writer.chunkId) && writer.store.active == writer.base.active && FiledById(deps)
    requires plan == Plan(deps, writer.chunkId, writer.open, states) && DistinctIds(manifest) && g == writer.Gen()
    modifies writer`store, writer`step, writer`history
    ensures writer.Valid() && writer.Continues()
    ensures writer.Gen() == Contents(plan, g, manifest).(vectors := writer.Gen().vectors)
    ensures Replaced(results) == {} <==> NothingReplaced(deps, states, g.rows, manifest)
    ensures forall c :: c in Replaced(results) ==> c in writer.Gen().rows
    ensures (exists i :: 0 <= i < |results| && results[i].fate.Rejected?) <==> AnyRejected(deps, states, manifest)
    ensures called <==> AnyCalls(deps, states, manifest)
  {
    var entries := Sort(IdLt, manifest);
    SortedEntries(manifest);
    results, called := IngestEntries(plan, deps, writer, entries, states, g);
    ReplacedAreOldRows(plan, g.rows, manifest, entries, results);
    ReplacedEmptyExactly(plan, g.rows, manifest, entries, results);
    RejectedExactly(plan, g.rows, manifest, entries, results);
    ReplacedStayRows(plan, g, manifest, Replaced(results));
    RemoveAbsent(writer, states, Ids(manifest));
    writer.CleanupOrphans();
  }

  /** The next run of the same pipeline opens what the store now has. */
  ghost predicate Resumed(writer: IndexWriter)
    reads writer
    requires writer.open in writer.store.generations
  {
    writer.Resumes(false) && writer.Opened(false) == writer.Gen()
  }

  /** The supersession gate, then the parity gate. */
  method PassGates(writer: IndexWriter, results: seq<EntryResult>) returns (outcome: Outcome)
    requires writer.Valid() && writer.store.active == writer.base.active
    modifies writer`store, writer`step, writer`history
    ensures writer.Valid() && old(writer.history) <= writer.history
    ensures writer.Gen() == old(writer.Gen()).(links := writer.Gen().links)
    ensures !outcome.Refused? && (outcome.ParityFailed? ==> !Agrees(writer.Gen()))
    ensures outcome.SupersessionInvalid? <==> !AcyclicSnapshots(writer.Gen().snapshots)
    ensures !outcome.SupersessionInvalid? ==>
      forall p, s :: (p, s) in writer.Gen().links <==> SnapshotEdge(writer.Gen().snapshots, p, s)
    ensures outcome.Done? ==> Agrees(writer.Gen())
    ensures outcome.Done? && writer.Gen().signature == writer.signature ==> Resumed(writer)
    ensures outcome.Done? ==> (outcome.partial <==> exists i :: 0 <= i < |results| && results[i].fate.Rejected?)
    ensures writer.store.active == if outcome.Done? then Some(writer.open) else writer.base.active
  {
    var clean := writer.DeriveSupersessions();
    if !clean {
      return SupersessionInvalid;
    }
    var activated := writer.Activate();
    var failed := AnyFailed(results);
    outcome := if activated then Done(failed) else ParityFailed;
  }

  /** Vectors deleted from under rows are the end of agreement. */
  lemma AgreementAfterDeletion(g: Generation, after: Generation, lost: set<string>)
    requires Agrees(g) && after.rows == g.rows
    requires forall c :: c in lost ==> c in g.rows && c !in after.vectors
    requires forall c :: c in g.vectors && c !in lost ==> c in after.vectors && after.vectors[c] == g.vectors[c]
    ensures Agrees(after) <==> lost == {}
  {
    if lost != {} {
      var c :| c in lost;
      assert c in after.rows && c !in after.vectors;
    }
  }

  /** Opening, contents and gates: the part of a run that is safe throughout. */
  method Build(deps: Dependencies, writer: IndexWriter, manifest: seq<Entry>, states: map<string, RecordState>, rebuild: bool,
               newId: string, ghost base: Store, ghost g: Generation)
    returns (outcome: Outcome, results: seq<EntryResult>, called: bool, ghost plan: Plan)
    requires |writer.history| > 0 && writer.history[|writer.history| - 1] == writer.store && base == writer.store
    requires newId !in writer.store.generations && writer.store.active != Some(newId)
    requires g == writer.Opened(rebuild) && states == g.states
    requires Keyed(writer.chunkId, g.rows) && Injective(writer.chunkId)
    requires FiledById(deps) && DistinctIds(manifest)
    modifies writer
    ensures writer.Valid() && writer.base == base && writer.from == |old(writer.history)| && old(writer.history) <= writer.history
    ensures writer.open == if old(writer.Resumes(rebuild)) then base.active.value else newId
    ensures writer.agree <==> OpensAgreeing(base, writer.open)
    ensures plan == Plan(deps, writer.chunkId, writer.open, states)
    ensures writer.Gen() == Contents(plan, g, manifest).(vectors := writer.Gen().vectors, links := writer.Gen().links)
    ensures !outcome.Refused? && (outcome.ParityFailed? ==> !writer.agree)
    ensures outcome.SupersessionInvalid? <==> !AcyclicSnapshots(writer.Gen().snapshots)
    ensures !outcome.SupersessionInvalid? ==>
      forall p, s :: (p, s) in writer.Gen().links <==> SnapshotEdge(writer.Gen().snapshots, p, s)
    ensures outcome.Done? ==> Agrees(writer.Gen()) && Resumed(writer)
    ensures outcome.Done? ==> (outcome.partial <==> AnyRejected(deps, states, manifest))
    ensures writer.store.active == if outcome.Done? then Some(writer.open) else base.active
    ensures Replaced(results) == {} <==> NothingReplaced(deps, states, g.rows, manifest)
    ensures forall c :: c in Replaced(results) ==> c in writer.Gen().rows
    ensures called <==> AnyCalls(deps, states, manifest)
  {
    writer.OpenGeneration(rebuild, newId);
    plan := Plan(deps, writer.chunkId, writer.open, states);
    results, called := Populate(plan, deps, writer, manifest, states, g);
    ContentsSignature(plan, g, manifest);
    outcome := PassGates(writer, results);
  }

  /** The last step of a successful run. `nothing`: there is nothing to delete. */
  method DeleteReplaced(writer: IndexWriter, results: seq<EntryResult>, outcome: Outcome, ghost nothing: bool)
    requires writer.Valid() && (outcome.Done? ==> Agrees(writer.Gen()))
    requires Replaced(results) == {} <==> nothing
    requires forall c :: c in Replaced(results) ==> c in writer.Gen().rows
    modifies writer`store, writer`step, writer`history
    ensures old(writer.history) <= writer.history && writer.history[|writer.history| - 1] == writer.store
    ensures writer.history[..|old(writer.history)|] == old(writer.history)
    ensures writer.store.active == old(writer.store.active)
    ensures !outcome.Done? || nothing ==> writer.history == old(writer.history) && writer.store == old(writer.store)
    ensures writer.open == old(writer.open) && writer.open in writer.store.generations
    ensures writer.Gen() == old(writer.Gen()).(vectors := writer.Gen().vectors)
    ensures writer.store.active == Some(writer.open) && old(Resumed(writer)) ==> Resumed(writer)
    ensures outcome.Done? && (forall n, c :: writer.gone(n)(c)) ==> (Agrees(writer.Gen()) <==> nothing)
  {
    if outcome.Done? {
      ghost var g := writer.Gen();
      DeleteAllOld(writer, results);
      if forall n, c :: writer.gone(n)(c) {
        AgreementAfterDeletion(g, writer.Gen(), Replaced(results));
      }
    }
  }

  /** A rebuild opens an empty generation, so it replaces nothing. */
  lemma EmptyReplacesNothing(deps: Dependencies, states: map<string, RecordState>, manifest: seq<Entry>)
    ensures NothingReplaced(deps, states, map[], manifest)
  {
  }

  /** A run past its refusals. Every state from opening the generation up to
      `mark` is safe, and when the opened generation agreed it agrees in each of
      them. After `mark` only old vectors are deleted, and none when nothing was
      replaced; where deletions succeed the result agrees exactly then. */
  method Execute(deps: Dependencies, writer: IndexWriter, manifest: seq<Entry>, states: map<string, RecordState>, rebuild: bool,
                 newId: string, ghost base: Store, ghost g: Generation)
    returns (outcome: Outcome, called: bool, ghost mark: nat, ghost plan: Plan)
    requires |writer.history| > 0 && writer.history[|writer.history| - 1] == writer.store && base == writer.store
    requires newId !in writer.store.generations && writer.store.active != Some(newId)
    requires g == writer.Opened(rebuild) && states == g.states
    requires Keyed(writer.chunkId, g.rows) && Injective(writer.chunkId)
    requires FiledById(deps) && DistinctIds(manifest)
    modifies writer
    ensures !outcome.Refused?
    ensures called <==> AnyCalls(deps, g.states, manifest)
    ensures plan == Plan(deps, writer.chunkId, if old(writer.Resumes(rebuild)) then base.active.value else newId, g.states)
    ensures writer.open == plan.generation && writer.open in writer.store.generations
    ensures old(writer.history) <= writer.history && |old(writer.history)| < mark <= |writer.history|
    ensures SafeRun(writer.open, base, OpensAgreeing(base, writer.open), writer.history[..mark], |old(writer.history)|)
    ensures writer.Gen() == Contents(plan, g, manifest).(vectors := writer.Gen().vectors, links := writer.Gen().links)
    ensures writer.store.active == if outcome.Done? then Some(writer.open) else base.active
    ensures outcome.SupersessionInvalid? <==> !AcyclicSnapshots(writer.Gen().snapshots)
    ensures !outcome.SupersessionInvalid? ==>
      forall p, s :: (p, s) in writer.Gen().links <==> SnapshotEdge(writer.Gen().snapshots, p, s)
    ensures outcome.Done? ==> Resumed(writer)
    ensures OpensAgreeing(base, writer.open) ==> !outcome.ParityFailed?
    ensures !outcome.Done? || NothingReplaced(deps, g.states, g.rows, manifest) ==> mark == |writer.history|
    ensures outcome.Done? && NothingReplaced(deps, g.states, g.rows, manifest) ==> Agrees(writer.Gen())
    ensures outcome.Done? && (forall n, c :: writer.gone(n)(c)) ==>
      (Agrees(writer.Gen()) <==> NothingReplaced(deps, g.states, g.rows, manifest))
    ensures outcome.Done? ==> (outcome.partial <==> AnyRejected(deps, g.states, manifest))
  {
    var results;
    outcome, results, called, plan := Build(deps, writer, manifest, states, rebuild, newId, base, g);
    mark := |writer.history|;
    DeleteReplaced(writer, results, outcome, NothingReplaced(deps, states, g.rows, manifest));
  }

  /** `_run_ingest`: the refusals, then the run. A rebuild deletes nothing and
      agrees when it is done. */
  method RunIngest(deps: Dependencies, writer: IndexWriter, manifest: seq<Entry>, rebuild: bool, newId: string,
                   ghost base: Store, ghost g: Generation)
    returns (outcome: Outcome, called: bool, ghost mark: nat, ghost plan: Plan)
    requires |writer.history| > 0 && writer.history[|writer.history| - 1] == writer.store && base == writer.store
    requires newId !in writer.store.generations && writer.store.active != Some(newId)
    requires g == writer.Opened(rebuild)
    requires Keyed(writer.chunkId, g.rows) && Injective(writer.chunkId)
    requires FiledById(deps) && DistinctIds(manifest)
    modifies writer
    ensures outcome.Refused? <==>
      || (!rebuild && old(writer.StoredSignature()).Some? && old(writer.StoredSignature()).value != writer.signature)
      || (NeedsProvider(manifest, g.states, rebuild) && !deps.hasApiKey)
    ensures outcome.Refused? ==> writer.store == base && writer.history == old(writer.history) && !called
    ensures called ==> NeedsProvider(manifest, g.states, rebuild) && deps.hasApiKey
    ensures !outcome.Refused? ==> (called <==> AnyCalls(deps, g.states, manifest))
    ensures plan == Plan(deps, writer.chunkId, if old(writer.Resumes(rebuild)) then base.active.value else newId, g.states)
    ensures !outcome.Refused? ==>
      && writer.open == plan.generation && writer.open in writer.store.generations
      && old(writer.history) <= writer.history && |old(writer.history)| < mark <= |writer.history|
      && SafeRun(writer.open, base, OpensAgreeing(base, writer.open), writer.history[..mark], |old(writer.history)|)
      && writer.Gen() == Contents(plan, g, manifest).(vectors := writer.Gen().vectors, links := writer.Gen().links)
      && writer.store.active == (if outcome.Done? then Some(writer.open) else base.active)
      && (outcome.SupersessionInvalid? <==> !AcyclicSnapshots(writer.Gen().snapshots))
    ensures !outcome.Refused? && !outcome.SupersessionInvalid? ==>
      forall p, s :: (p, s) in writer.Gen().links <==> SnapshotEdge(writer.Gen().snapshots, p, s)
    ensures outcome.Done? ==> Resumed(writer)
    ensures !outcome.Refused? && OpensAgreeing(base, writer.open) ==> !outcome.ParityFailed?
    ensures !outcome.Refused? && !outcome.Done? ==> mark == |writer.history|
    ensures !outcome.Refused? && (rebuild || NothingReplaced(deps, g.states, g.rows, manifest)) ==> mark == |writer.history|
    ensures outcome.Done? && (rebuild || NothingReplaced(deps, g.states, g.rows, manifest)) ==> Agrees(writer.Gen())
    ensures outcome.Done? && (forall n, c :: writer.gone(n)(c)) ==>
      (Agrees(writer.Gen()) <==> NothingReplaced(deps, g.states, g.rows, manifest))
    ensures outcome.Done? ==> (outcome.partial <==> AnyRejected(deps, g.states, manifest))
  {
    mark, called := 0, false;
    plan := Plan(deps, writer.chunkId, if writer.Resumes(rebuild) then base.active.value else newId, g.states);
    EmptyReplacesNothing(deps, g.states, manifest);
    var signature := writer.StoredSignature();
    if !rebuild && signature.Some? && signature.value != writer.signature {
      return Refused("pipeline.incompatible"), false, 0, plan;
    }
    var states := writer.Opened(rebuild).states;
    var needs := PlanNeedsProvider(manifest, states, rebuild);
    if needs && !deps.hasApiKey {
      return Refused("provider.key"), false, 0, plan;
    }
    CallsNeedProvider(deps, g.states, manifest);
    outcome, called, mark, plan := Execute(deps, writer, manifest, states, rebuild, newId, base, g);
  }

  // ----- What the contents are, and the next run -----

  /** The state row an entry ends with. */
  function StateAfter(plan: Plan, e: Entry): Option<RecordState> {
    match FateOf(plan.deps, plan.states, e)
    case Unchanged => Lookup(plan.states, e.id)
    case Rejected(_) => Some(RecordState(FailedState, Some(e.fingerprint), PriorFingerprint(plan.states, e.id)))
    case Written(record, slots) =>
      var f := Some(StoredFingerprint(plan.deps, e, record, slots));
      Some(RecordState(Current, f, f))
  }

  lemma AppliedStates(plan: Plan, g: Generation, e: Entry, id: string)
    requires Lookup(g.states, e.id) == Lookup(plan.states, e.id)
    ensures Lookup(Applied(plan, g, e).states, id) == if id == e.id then StateAfter(plan, e) else Lookup(g.states, id)
  {}

  lemma {:induction false} AllAppliedStates(plan: Plan, g: Generation, entries: seq<Entry>, id: string)
    requires g.states == plan.states && DistinctIds(entries)
    ensures forall e :: e in entries && e.id == id ==> Lookup(AllApplied(plan, g, entries).states, id) == StateAfter(plan, e)
    ensures (forall e :: e in entries ==> e.id != id) ==> Lookup(AllApplied(plan, g, entries).states, id) == Lookup(plan.states, id)
  {
    if entries != [] {
      var front, last := entries[..|entries| - 1], entries[|entries| - 1];
      assert entries == front + [last];
      assert forall e :: e in front ==> e.id != last.id;
      AllAppliedStates(plan, g, front, id);
      AllAppliedStates(plan, g, front, last.id);
      AppliedStates(plan, AllApplied(plan, g, front), last, id);
    }
  }

  /** The snapshot an entry ends with: a failed record has none. */
  function SnapshotAfter(plan: Plan, before: map<string, Option<string>>, e: Entry): Option<Option<string>> {
    match FateOf(plan.deps, plan.states, e)
    case Unchanged => if e.id in before then Some(before[e.id]) else None
    case Rejected(_) => None
    case Written(record, _) => Some(record.supersedes)
  }

  function Snapshot(g: Generation, id: string): Option<Option<string>> {
    if id in g.snapshots then Some(g.snapshots[id]) else None
  }

  lemma AppliedSnapshots(plan: Plan, g: Generation, e: Entry, id: string)
    ensures Snapshot(Applied(plan, g, e), id) == if id == e.id then SnapshotAfter(plan, g.snapshots, e) else Snapshot(g, id)
  {}

  lemma {:induction false} AllAppliedSnapshots(plan: Plan, g: Generation, entries: seq<Entry>, id: string)
    requires DistinctIds(entries)
    ensures forall e :: e in entries && e.id == id ==> Snapshot(AllApplied(plan, g, entries), id) == SnapshotAfter(plan, g.snapshots, e)
    ensures (forall e :: e in entries ==> e.id != id) ==> Snapshot(AllApplied(plan, g, entries), id) == Snapshot(g, id)
  {
    if entries != [] {
      var front, last := entries[..|entries| - 1], entries[|entries| - 1];
      assert entries == front + [last];
      assert forall e :: e in front ==> e.id != last.id;
      AllAppliedSnapshots(plan, g, front, id);
      AllAppliedSnapshots(plan, g, front, last.id);
      AppliedSnapshots(plan, AllApplied(plan, g, front), last, id);
      UnchangedSnapshot(plan, g, AllApplied(plan, g, front), last);
    }
  }

  lemma UnchangedSnapshot(plan: Plan, g: Generation, h: Generation, e: Entry)
    requires Snapshot(h, e.id) == Snapshot(g, e.id)
    ensures SnapshotAfter(plan, h.snapshots, e) == SnapshotAfter(plan, g.snapshots, e)
  {}

  /** The snapshots the supersession gate reads: written records with what they
      supersede, unchanged ones as they were, failed and departed ones not. */
  lemma SnapshotsAfterRun(plan: Plan, g: Generation, manifest: seq<Entry>, id: string)
    requires DistinctIds(manifest)
    ensures forall e :: e in manifest && e.id == id ==> Snapshot(Contents(plan, g, manifest), id) == SnapshotAfter(plan, g.snapshots, e)
    ensures id in Departed(Ids(manifest), plan.states) ==> Snapshot(Contents(plan, g, manifest), id) == None
    ensures id !in Ids(manifest) && id !in Departed(Ids(manifest), plan.states)
      ==> Snapshot(Contents(plan, g, manifest), id) == Snapshot(g, id)
  {
    SortedEntries(manifest);
    AllAppliedSnapshots(plan, g, Sort(IdLt, manifest), id);
    assert forall e :: e in manifest ==> e.id in Ids(manifest);
    SweptSnapshot(AllApplied(plan, g, Sort(IdLt, manifest)), plan.states, Departed(Ids(manifest), plan.states), id);
  }

  lemma SweptSnapshot(g: Generation, states: map<string, RecordState>, departed: set<string>, id: string)
    ensures Snapshot(Swept(g, states, departed), id) == if id in departed then None else Snapshot(g, id)
  {}

  /** Every state row after a run: entries as they fared, departed records as
      tombstones, and nothing else touched. */
  lemma StatesAfterRun(plan: Plan, g: Generation, manifest: seq<Entry>, id: string)
    requires g.states == plan.states && DistinctIds(manifest)
    ensures var states := Contents(plan, g, manifest).states;
      && (forall e :: e in manifest && e.id == id ==> Lookup(states, id) == StateAfter(plan, e))
      && (id in Departed(Ids(manifest), plan.states)
          ==> Lookup(states, id) == Some(RecordState(RemovedState, plan.states[id].active, None)))
      && (id !in Ids(manifest) && id !in Departed(Ids(manifest), plan.states) ==> Lookup(states, id) == Lookup(plan.states, id))
  {
    SortedEntries(manifest);
    AllAppliedStates(plan, g, Sort(IdLt, manifest), id);
    assert forall e :: e in manifest ==> e.id in Ids(manifest);
  }

  /** Departed records keep no row, and no record of the manifest loses one. */
  lemma RowsAfterRun(plan: Plan, g: Generation, manifest: seq<Entry>)
    requires Injective(plan.chunkId) && Keyed(plan.chunkId, g.rows) && DistinctIds(manifest)
    ensures var rows := Contents(plan, g, manifest).rows;
      && (forall c :: c in rows ==> rows[c].record !in Departed(Ids(manifest), plan.states))
      && (forall c :: c in g.rows && g.rows[c].record !in Departed(Ids(manifest), plan.states) ==> c in rows && rows[c] == g.rows[c])
      && (forall c :: c in rows && c !in g.rows ==> rows[c].record in Ids(manifest))
  {
    SortedEntries(manifest);
    AllAppliedGrows(plan, g, Sort(IdLt, manifest));
    forall c | c in Contents(plan, g, manifest).rows && c !in g.rows ensures Contents(plan, g, manifest).rows[c].record in Ids(manifest) {
      var e :| e in Sort(IdLt, manifest) && e.id == Contents(plan, g, manifest).rows[c].record;
      assert e in manifest;
    }
  }

  // ----- Which rows a run files -----

  /** The locator of the `k`-th chunk of an entry that is written. */
  ghost predicate FiledBy(plan: Plan, e: Entry, k: nat, l: Locator) {
    var fate := FateOf(plan.deps, plan.states, e);
    && fate.Written? && k < |fate.slots|
    && l == Locator(plan.generation, e.id, e.fingerprint, fate.slots[k].valuePath, fate.slots[k].ordinal)
  }

  ghost predicate Filed(plan: Plan, entries: seq<Entry>, l: Locator) {
    exists e, k: nat :: e in entries && FiledBy(plan, e, k, l)
  }

  /** The table has a row for this locator, under its hash. */
  ghost predicate Holds(chunkId: Locator -> string, rows: Table, l: Locator) {
    chunkId(l) in rows && rows[chunkId(l)] == l
  }

  lemma PlacedHolds(chunkId: Locator -> string, chunks: seq<Locator>, l: Locator)
    requires Injective(chunkId)
    ensures Holds(chunkId, Placed(chunkId, chunks), l) <==> l in chunks
    ensures chunkId(l) in Placed(chunkId, chunks) ==> l in chunks
  {
    PlacedEntries(chunkId, chunks);
  }

  lemma AppliedHolds(plan: Plan, g: Generation, e: Entry, l: Locator)
    requires Injective(plan.chunkId)
    ensures Holds(plan.chunkId, Applied(plan, g, e).rows, l) <==> Holds(plan.chunkId, g.rows, l) || exists k: nat :: FiledBy(plan, e, k, l)
  {
    var fate := FateOf(plan.deps, plan.states, e);
    if fate.Written? {
      PlacedHolds(plan.chunkId, Locators(plan.generation, e.id, e.fingerprint, fate.slots), l);
      LocatorsAreFiled(plan, e, l);
    }
  }

  lemma LocatorsAreFiled(plan: Plan, e: Entry, l: Locator)
    requires FateOf(plan.deps, plan.states, e).Written?
    ensures l in Locators(plan.generation, e.id, e.fingerprint, FateOf(plan.deps, plan.states, e).slots)
       <==> exists k: nat :: FiledBy(plan, e, k, l)
  {
    var chunks := Locators(plan.generation, e.id, e.fingerprint, FateOf(plan.deps, plan.states, e).slots);
    if l in chunks {
      var k :| 0 <= k < |chunks| && chunks[k] == l;
      assert FiledBy(plan, e, k, l);
    }
    if k: nat :| FiledBy(plan, e, k, l) { assert chunks[k] == l; }
  }

  lemma {:induction false} AllAppliedHolds(plan: Plan, g: Generation, entries: seq<Entry>, l: Locator)
    requires Injective(plan.chunkId)
    ensures Holds(plan.chunkId, AllApplied(plan, g, entries).rows, l) <==> Holds(plan.chunkId, g.rows, l) || Filed(plan, entries, l)
  {
    if entries != [] {
      var front, last := entries[..|entries| - 1], entries[|entries| - 1];
      AllAppliedHolds(plan, g, front, l);
      AppliedHolds(plan, AllApplied(plan, g, front), last, l);
      assert entries == front + [last];
      assert Filed(plan, entries, l) <==> Filed(plan, front, l) || exists k: nat :: FiledBy(plan, last, k, l);
    }
  }

  /** The rows after a run are those of records that stay, and one for each
      chunk of each written record, no other. */
  lemma RowsAreTheChunks(plan: Plan, g: Generation, manifest: seq<Entry>, l: Locator)
    requires Injective(plan.chunkId) && Keyed(plan.chunkId, g.rows) && DistinctIds(manifest)
    ensures Keyed(plan.chunkId, Contents(plan, g, manifest).rows)
    ensures Holds(plan.chunkId, Contents(plan, g, manifest).rows, l)
       <==> (Holds(plan.chunkId, g.rows, l) && l.record !in Departed(Ids(manifest), plan.states)) || Filed(plan, manifest, l)
  {
    var sorted := Sort(IdLt, manifest);
    SortedEntries(manifest);
    AllAppliedHolds(plan, g, sorted, l);
    AllAppliedGrows(plan, g, sorted);
    assert Filed(plan, sorted, l) <==> Filed(plan, manifest, l);
    if Filed(plan, manifest, l) {
      var e, k: nat :| e in manifest && FiledBy(plan, e, k, l);
      assert l.record in Ids(manifest);
    }
  }

  predicate FreeNextTime(plan: Plan, e: Entry) {
    match FateOf(plan.deps, plan.states, e)
    case Unchanged => true
    case Rejected(_) => false
    case Written(record, slots) => slots != [] || plan.deps.recordDigest(record) == e.fingerprint
  }

  lemma UpToDateAfter(plan: Plan, e: Entry)
    ensures UpToDate(StateAfter(plan, e), e) <==> FreeNextTime(plan, e)
  {}

  /** After a run the same manifest needs no embedding call exactly when no
      entry failed and every record written without chunks has its digest for
      a fingerprint. */
  lemma NextRunIsFreeExactly(plan: Plan, g: Generation, manifest: seq<Entry>)
    requires g.states == plan.states && DistinctIds(manifest)
    ensures !NeedsProvider(manifest, Contents(plan, g, manifest).states, false)
      <==> forall e :: e in manifest ==> FreeNextTime(plan, e)
  {
    var states := Contents(plan, g, manifest).states;
    forall e | e in manifest ensures UpToDate(Lookup(states, e.id), e) <==> FreeNextTime(plan, e) {
      StatesAfterRun(plan, g, manifest, e.id);
      UpToDateAfter(plan, e);
    }
    ProviderFor(manifest, states);
  }

  lemma ProviderFor(manifest: seq<Entry>, states: map<string, RecordState>)
    ensures !NeedsProvider(manifest, states, false) <==> forall e :: e in manifest ==> UpToDate(Lookup(states, e.id), e)
  {}

  /** The witness against in place updates: one record whose file changed. Its
      old row outlives its vector, so the next parity check fails. */
  lemma ReplacementBreaksAgreement(plan: Plan, g: Generation, e: Entry, oldChunk: string)
    requires Injective(plan.chunkId) && Keyed(plan.chunkId, g.rows) && Agrees(g)
    requires FateOf(plan.deps, plan.states, e).Written?
    requires oldChunk in g.rows && g.rows[oldChunk].record == e.id
    ensures var done := Deleted(Contents(plan, g, [e]), OldIds(plan.deps, plan.states, g.rows, e), _ => true);
      oldChunk in done.rows && !Agrees(done)
  {
    var r := [e];
    assert e in r;
    ReplacedStayRows(plan, g, r, {oldChunk});
    var done := Deleted(Contents(plan, g, r), OldIds(plan.deps, plan.states, g.rows, e), _ => true);
    assert oldChunk in done.rows && oldChunk !in done.vectors;
  }
}
