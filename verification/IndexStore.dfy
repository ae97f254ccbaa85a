/** The store of `infrastructure/index_store.py`: SQLite rows and vectors of
    each generation, the ACTIVE pointer, and the writer whose every atomic step
    is kept in a history. A crash leaves some state of that history behind. */
module IndexStore {
  import opened Options
  import S = Supersession

  // ----- Store states -----

  /** What a chunk row and a vector's metadata both hold. */
  datatype Locator = Locator(generation: string, record: string, fingerprint: string, valuePath: string, ordinal: nat)

  datatype State = Current | FailedState | PendingRemoval | RemovedState
  datatype RecordState = RecordState(state: State, desired: Fingerprint, active: Fingerprint)
  type Fingerprint = Option<string>

  type Table = map<string, Locator>

  datatype Generation = Generation(
    signature: string, rows: Table, vectors: Table, states: map<string, RecordState>,
    snapshots: map<string, Option<string>>, links: set<S.Edge>)

  datatype Store = Store(generations: map<string, Generation>, active: Option<string>)

  /** Every chunk row has its vector, with the same metadata. */
  ghost predicate Agrees(g: Generation) {
    forall c :: c in g.rows ==> c in g.vectors && g.vectors[c] == g.rows[c]
  }

  /** What a query needs: the generation ACTIVE names agrees. */
  ghost predicate ActiveAgrees(s: Store) {
    s.active.Some? && s.active.value in s.generations ==> Agrees(s.generations[s.active.value])
  }

  /** Rows are filed under the hash of their locator. */
  ghost predicate Keyed(chunkId: Locator -> string, rows: Table) {
    forall c :: c in rows ==> chunkId(rows[c]) == c
  }

  ghost predicate Injective(chunkId: Locator -> string) {
    forall a, b :: chunkId(a) == chunkId(b) ==> a == b
  }

  // ----- Table updates -----

  function Placed(chunkId: Locator -> string, chunks: seq<Locator>): Table {
    if chunks == [] then map[]
    else
      var last := chunks[|chunks| - 1];
      Placed(chunkId, chunks[..|chunks| - 1])[chunkId(last) := last]
  }

  lemma {:induction false} PlacedEntries(chunkId: Locator -> string, chunks: seq<Locator>)
    ensures Keyed(chunkId, Placed(chunkId, chunks))
    ensures forall c :: c in Placed(chunkId, chunks) ==> Placed(chunkId, chunks)[c] in chunks
    ensures forall l :: l in chunks ==> chunkId(l) in Placed(chunkId, chunks)
  {
    if chunks != [] {
      PlacedEntries(chunkId, chunks[..|chunks| - 1]);
      assert chunks == chunks[..|chunks| - 1] + [chunks[|chunks| - 1]];
    }
  }

  function Owned(rows: Table, record: string): set<string> {
    set c | c in rows && rows[c].record == record
  }

  function Without(table: Table, ids: set<string>): Table {
    map c | c in table && c !in ids :: table[c]
  }

  /** A best effort deletion: `gone` says which of the vectors really go. */
  function Spare(vectors: Table, ids: set<string>, gone: string -> bool): Table {
    map c | c in vectors && !(c in ids && gone(c)) :: vectors[c]
  }

  function Upserted(g: Generation, placed: Table): Generation {
    g.(vectors := g.vectors + placed)
  }

  /** One SQLite transaction: state, snapshot and chunk rows; rows of an
      earlier version stay. */
  function Committed(g: Generation, record: string, state: RecordState, supersedes: Option<string>, placed: Table): Generation {
    g.(rows := g.rows + placed, states := g.states[record := state], snapshots := g.snapshots[record := supersedes])
  }

  /** What `write_record` leaves behind. */
  function Stored(g: Generation, record: string, fingerprint: Fingerprint, supersedes: Option<string>, placed: Table): Generation {
    Committed(Upserted(g, placed), record, RecordState(Current, fingerprint, fingerprint), supersedes, placed)
  }

  /** `INSERT OR REPLACE` of a state row: replacing an old row deletes the
      snapshot that refers to it. */
  function Failed(g: Generation, record: string, state: RecordState): Generation {
    g.(states := g.states[record := state], snapshots := g.snapshots - {record})
  }

  /** One SQLite transaction: the tombstone. */
  function Dropped(g: Generation, record: string, prior: Fingerprint): Generation {
    g.(rows := Without(g.rows, Owned(g.rows, record)), snapshots := g.snapshots - {record},
       states := g.states[record := RecordState(RemovedState, prior, None)])
  }

  function Deleted(g: Generation, ids: set<string>, gone: string -> bool): Generation {
    g.(vectors := Spare(g.vectors, ids, gone))
  }

  // ----- Which updates keep rows and vectors together -----

  /** A vector written over an existing row's vector is that row's vector. */
  lemma UpsertKeeps(chunkId: Locator -> string, g: Generation, chunks: seq<Locator>)
    requires Injective(chunkId) && Keyed(chunkId, g.rows)
    requires Agrees(g)
    ensures Agrees(Upserted(g, Placed(chunkId, chunks)))
  {
    PlacedEntries(chunkId, chunks);
  }

  /** Rows may be committed once their vectors are there. */
  lemma CommitKeeps(chunkId: Locator -> string, g: Generation, record: string, state: RecordState,
                    supersedes: Option<string>, chunks: seq<Locator>)
    requires Agrees(g) && Keyed(chunkId, g.rows)
    ensures var u := Upserted(g, Placed(chunkId, chunks));
      && Keyed(chunkId, Committed(u, record, state, supersedes, Placed(chunkId, chunks)).rows)
      && Agrees(Committed(u, record, state, supersedes, Placed(chunkId, chunks)))
  {
    PlacedEntries(chunkId, chunks);
  }

  /** Deleting vectors keeps agreement exactly when no row needs a deleted one. */
  lemma DeleteKeepsExactly(g: Generation, ids: set<string>, gone: string -> bool)
    requires Agrees(g)
    ensures Agrees(Deleted(g, ids, gone)) <==> forall c :: c in ids && c in g.rows ==> !gone(c)
  {
    if Agrees(Deleted(g, ids, gone)) {
      forall c | c in ids && c in g.rows ensures !gone(c) {
        assert c in Deleted(g, ids, gone).rows;
      }
    }
  }

  // ----- A run so far -----

  /** Other generations are untouched and ACTIVE is where it was or names the
      open generation, in agreement; `agree`: the open generation agrees. */
  ghost predicate SafeStep(open: string, base: Store, agree: bool, s: Store) {
    && open in s.generations
    && s.generations - {open} == base.generations - {open}
    && (s.active == base.active || (s.active == Some(open) && Agrees(s.generations[open])))
    && (agree ==> Agrees(s.generations[open]))
  }

  ghost predicate SafeRun(open: string, base: Store, agree: bool, history: seq<Store>, from: nat) {
    forall i :: from <= i < |history| ==> SafeStep(open, base, agree, history[i])
  }

  /** A safe step is safe for queries, whether the run rebuilds or resumes. */
  lemma SafeStepServesQueries(open: string, base: Store, agree: bool, s: Store)
    requires SafeStep(open, base, agree, s) && ActiveAgrees(base)
    requires base.active == Some(open) ==> agree
    ensures ActiveAgrees(s)
  {
    if s.active == base.active && s.active.Some? && s.active.value != open && s.active.value in s.generations {
      var prior := base.active.value;
      assert prior in s.generations - {open};
      assert s.generations[prior] == (s.generations - {open})[prior];
      assert base.generations[prior] == (base.generations - {open})[prior];
    }
  }

  /** A crash anywhere in a safe run leaves a store that serves queries. */
  lemma SafeRunServesQueries(open: string, base: Store, history: seq<Store>, from: nat)
    requires SafeRun(open, base, OpensAgreeing(base, open), history, from) && ActiveAgrees(base)
    ensures forall i :: from <= i < |history| ==> ActiveAgrees(history[i])
  {
    forall i | from <= i < |history| ensures ActiveAgrees(history[i]) {
      SafeStepServesQueries(open, base, OpensAgreeing(base, open), history[i]);
    }
  }

  /** The generation a run opens starts out agreeing: a new one always does. */
  ghost predicate OpensAgreeing(base: Store, open: string) {
    base.active == Some(open) && open in base.generations ==> Agrees(base.generations[open])
  }

  // ----- The writer -----

  class IndexWriter {
    const chunkId: Locator -> string
    const signature: string
    /** Which vectors a deletion really removes, by step number. */
    const gone: nat -> (string -> bool)

    var store: Store
    var open: string
    var step: nat

    ghost var history: seq<Store>
    ghost var base: Store
    ghost var from: nat
    ghost var agree: bool

    constructor (chunkId: Locator -> string, signature: string, gone: nat -> (string -> bool), store: Store)
      ensures this.chunkId == chunkId && this.signature == signature && this.gone == gone && this.store == store
      ensures history == [store]
    {
      this.chunkId, this.signature, this.gone, this.store := chunkId, signature, gone, store;
      open, step := "", 0;
      history, base, from, agree := [store], store, 1, false;
    }

    function Gen(): Generation
      reads this
      requires open in store.generations
    {
      store.generations[open]
    }

    /** The run invariant. */
    ghost predicate Valid()
      reads this
    {
      && open in store.generations && from < |history| && history[|history| - 1] == store
      && SafeRun(open, base, agree, history, from)
      && Keyed(chunkId, Gen().rows)
    }

    /** The run so far is a prefix of the run after. */
    twostate predicate Continues()
      reads this
    {
      && open == old(open) && base == old(base) && from == old(from) && agree == old(agree)
      && store.active == old(store.active) && old(history) <= history
    }

    /** `active_pipeline_signature`. */
    function StoredSignature(): Option<string>
      reads this
    {
      if store.active.Some? && store.active.value in store.generations
      then Some(store.generations[store.active.value].signature) else None
    }

    predicate Resumes(rebuild: bool)
      reads this
    {
      !rebuild && StoredSignature() == Some(signature)
    }

    /** The generation a run starts from: the active one, or an empty one. Its
        states are `existing_states`, read before anything is opened. */
    function Opened(rebuild: bool): Generation
      reads this
    {
      if Resumes(rebuild) then store.generations[store.active.value]
      else Generation(signature, map[], map[], map[], map[], {})
    }

    /** Write the open generation in one atomic step. */
    method Set(g: Generation)
      requires Valid() && Keyed(chunkId, g.rows)
      requires store.active == base.active
      requires agree ==> Agrees(g)
      modifies this`store, this`step, this`history
      ensures Valid() && Continues() && Gen() == g
    {
      store := store.(generations := store.generations[open := g]);
      step := step + 1;
      history := history + [store];
      assert store.generations - {open} == old(store.generations) - {open};
    }

    /** `open_generation`: resume the active generation or create a newId one. */
    method OpenGeneration(rebuild: bool, newId: string)
      requires newId !in store.generations && store.active != Some(newId)
      requires Keyed(chunkId, Opened(rebuild).rows)
      modifies this
      ensures Valid() && base == old(store) && from == |old(history)| && old(history) <= history
      ensures store.active == base.active
      ensures open == if old(Resumes(rebuild)) then base.active.value else newId
      ensures Gen() == old(Opened(rebuild))
      ensures agree <==> OpensAgreeing(base, open)
    {
      var resumes := Resumes(rebuild);
      base, from := store, |history|;
      if resumes {
        open := store.active.value;
      } else {
        open := newId;
        store := store.(generations := store.generations[newId := Opened(rebuild)]);
      }
      step := step + 1;
      history := history + [store];
      agree := Agrees(store.generations[open]);
      assert store.generations - {open} == base.generations - {open};
    }

    /** `write_record`: read the old chunk ids, upsert vectors, commit rows. */
    method WriteRecord(record: string, chunks: seq<Locator>, fingerprint: string, supersedes: Option<string>)
      returns (oldIds: set<string>)
      requires Valid() && Injective(chunkId) && store.active == base.active
      modifies this`store, this`step, this`history
      ensures Valid() && Continues()
      ensures oldIds == Owned(old(Gen().rows), record)
      ensures Gen() == Stored(old(Gen()), record, Some(fingerprint), supersedes, Placed(chunkId, chunks))
    {
      oldIds := Owned(Gen().rows, record);
      ghost var g := Gen();
      var placed := Placed(chunkId, chunks);
      if agree { UpsertKeeps(chunkId, g, chunks); }
      if chunks != [] {
        Set(Upserted(Gen(), placed));
      }
      assert Gen() == Upserted(g, placed);
      PlacedEntries(chunkId, chunks);
      if agree { CommitKeeps(chunkId, g, record, RecordState(Current, Some(fingerprint), Some(fingerprint)), supersedes, chunks); }
      Set(Committed(Gen(), record, RecordState(Current, Some(fingerprint), Some(fingerprint)), supersedes, placed));
    }

    /** `mark_failed`: the state row is replaced and its snapshot goes with it. */
    method MarkFailed(record: string, state: RecordState)
      requires Valid() && store.active == base.active
      modifies this`store, this`step, this`history
      ensures Valid() && Continues()
      ensures Gen() == Failed(old(Gen()), record, state)
    {
      Set(Failed(Gen(), record, state));
    }

    /** `mark_pending_removal`: an update of the state row alone. */
    method MarkPending(record: string, state: RecordState)
      requires Valid() && store.active == base.active
      modifies this`store, this`step, this`history
      ensures Valid() && Continues()
      ensures Gen() == old(Gen()).(states := old(Gen()).states[record := state])
    {
      Set(Gen().(states := Gen().states[record := state]));
    }

    /** `delete_vectors` for ids without rows: never fatal, and harmless. */
    method DeleteOrphanVectors(ids: set<string>)
      requires Valid() && store.active == base.active
      requires ids !! Gen().rows.Keys
      modifies this`store, this`step, this`history
      ensures Valid() && Continues()
      ensures Gen() == old(Gen()).(vectors := Gen().vectors)
    {
      if ids != {} {
        if agree { DeleteKeepsExactly(Gen(), ids, gone(step)); }
        Set(Deleted(Gen(), ids, gone(step)));
      }
    }

    /** `remove_record`: rows go in one transaction, their vectors after. */
    method RemoveRecord(record: string, prior: Fingerprint)
      requires Valid() && store.active == base.active
      modifies this`store, this`step, this`history
      ensures Valid() && Continues()
      ensures Gen() == Dropped(old(Gen()), record, prior).(vectors := Gen().vectors)
    {
      var ids := Owned(Gen().rows, record);
      Set(Dropped(Gen(), record, prior));
      DeleteOrphanVectors(ids);
    }

    /** `cleanup_orphans`. */
    method CleanupOrphans()
      requires Valid() && store.active == base.active
      modifies this`store, this`step, this`history
      ensures Valid() && Continues()
      ensures Gen() == old(Gen()).(vectors := Gen().vectors)
    {
      DeleteOrphanVectors(Gen().vectors.Keys - Gen().rows.Keys);
    }

    /** `derive_supersessions`: the links are rewritten when the graph is clean. */
    method DeriveSupersessions() returns (clean: bool)
      requires Valid() && store.active == base.active
      modifies this`store, this`step, this`history
      ensures Valid() && Continues()
      ensures Gen() == old(Gen()).(links := Gen().links)
      ensures clean <==> AcyclicSnapshots(Gen().snapshots)
      ensures clean ==> forall p, s :: (p, s) in Gen().links <==> SnapshotEdge(Gen().snapshots, p, s)
      ensures !clean ==> store == old(store)
    {
      var table := new S.LinkTable(Gen().snapshots, Gen().links);
      ghost var edges;
      var verdict;
      verdict, edges := table.DeriveSupersessions();
      SnapshotsDecide(Gen().snapshots, edges);
      clean := verdict.Clean?;
      if clean {
        Set(Gen().(links := table.links));
      }
    }

    /** `verify_vectors` over every chunk row. */
    method VerifyVectors() returns (parity: bool)
      requires Valid()
      ensures parity <==> Agrees(Gen())
    {
      var g := Gen();
      var todo := g.rows.Keys;
      while todo != {}
        invariant todo <= g.rows.Keys
        invariant forall c :: c in g.rows && c !in todo ==> c in g.vectors && g.vectors[c] == g.rows[c]
      {
        var c :| c in todo;
        todo := todo - {c};
        if c !in g.vectors || g.vectors[c] != g.rows[c] {
          return false;
        }
      }
      return true;
    }

    /** `activate`: parity first, then the ACTIVE pointer. */
    method Activate() returns (activated: bool)
      requires Valid() && store.active == base.active
      modifies this`store, this`step, this`history
      ensures Valid() && old(history) <= history && Gen() == old(Gen())
      ensures activated <==> Agrees(Gen())
      ensures store.active == if activated then Some(open) else base.active
      ensures activated && Gen().signature == signature ==> Resumes(false) && Opened(false) == Gen()
    {
      activated := VerifyVectors();
      if activated {
        store := store.(active := Some(open));
        step := step + 1;
        history := history + [store];
      }
    }

    /** `delete_vectors` once a generation is active: what it takes from a row
        is lost, so only an empty list is safe for certain. */
    method DeleteOldVectors(ids: set<string>)
      requires open in store.generations && |history| > 0 && history[|history| - 1] == store
      modifies this`store, this`step, this`history
      ensures open in store.generations && |history| > 0 && history[|history| - 1] == store
      ensures store.active == old(store.active) && store.generations - {open} == old(store.generations) - {open}
      ensures old(history) <= history && (ids == {} ==> history == old(history))
      ensures Gen() == Deleted(old(Gen()), ids, gone(old(step)))
    {
      if ids != {} {
        store := store.(generations := store.generations[open := Deleted(Gen(), ids, gone(step))]);
        step := step + 1;
        history := history + [store];
        assert store.generations - {open} == old(store.generations) - {open};
      } else {
        assert Gen().vectors == Spare(Gen().vectors, ids, gone(step));
      }
    }
  }

  // ----- Supersession snapshots -----

  ghost predicate SnapshotEdge(snapshots: map<string, Option<string>>, predecessor: string, successor: string) {
    successor in snapshots && snapshots[successor] == Some(predecessor)
  }

  /** Some listing of the snapshot edges, and so every one, has no cycle. */
  ghost predicate AcyclicSnapshots(snapshots: map<string, Option<string>>) {
    exists edges: seq<S.Edge> :: Lists(edges, snapshots) && S.Acyclic(edges)
  }

  ghost predicate Lists(edges: seq<S.Edge>, snapshots: map<string, Option<string>>) {
    forall p, s :: (p, s) in edges <==> SnapshotEdge(snapshots, p, s)
  }

  lemma SnapshotsDecide(snapshots: map<string, Option<string>>, edges: seq<S.Edge>)
    requires Lists(edges, snapshots)
    ensures AcyclicSnapshots(snapshots) <==> S.Acyclic(edges)
  {
    if AcyclicSnapshots(snapshots) {
      var other :| Lists(other, snapshots) && S.Acyclic(other);
      forall w ensures !S.ClosedWalk(edges, w) {
        assert !S.ClosedWalk(other, w);
        assert forall i :: 0 <= i < |w| - 1 ==> ((w[i], w[i + 1]) in edges <==> (w[i], w[i + 1]) in other);
      }
    }
  }
}
