/** Record files of `infrastructure/file_reader.py`: a fenced YAML mapping and
    a markdown body. YAML itself is a codec with a stated contract. */
module RecordFile {
  import opened Options
  import opened Text

  const FENCE: string := "---"

  // ----- Records -----

  datatype Status = Proposed | Accepted | Superseded | Rejected
  datatype Kind = Spec | File | Commit

  datatype Context = Context(problem: Option<string>, triggeringChange: Option<string>)
  datatype Alternative = Alternative(title: Option<string>, rejectionReason: Option<string>)
  datatype Decision = Decision(chosen: Option<string>, alternatives: seq<Alternative>)
  datatype Consequences = Consequences(positive: seq<string>, negative: seq<string>)
  datatype Evidence = Evidence(kind: Option<Kind>, target: Option<string>, note: Option<string>)

  datatype Record = Record(
    id: Option<string>, title: Option<string>, status: Option<Status>, date: Option<string>, body: Option<string>,
    context: Option<Context>, decision: Option<Decision>, why: seq<string>, rationaleSummary: Option<string>,
    consequences: Option<Consequences>, evidence: Option<seq<Evidence>>, tags: seq<string>, supersedes: Option<string>)

  // ----- YAML values -----

  /** The keys of the record schema; keys outside it are not modelled. */
  datatype Key =
    | KId | KTitle | KStatus | KDate | KContext | KDecision | KWhy | KRationaleSummary | KConsequences | KEvidence
    | KTags | KSupersedes | KProblem | KTriggeringChange | KChosen | KAlternatives | KRejectionReason
    | KPositive | KNegative | KKind | KTarget | KNote

  type Mapping = map<Key, Yaml>

  datatype Yaml = YNull | YText(text: string) | YList(items: seq<Yaml>) | YMap(entries: Mapping)

  /** `safe_dump` and `safe_load`. */
  datatype Codec = Codec(dump: Mapping -> string, load: string -> Option<Yaml>)

  ghost predicate DumpsAs(codec: Codec, m: Mapping, front: string) {
    codec.dump(m) == front + "\n" && '\r' !in front && FENCE !in Lines(front) && codec.load(front) == Some(YMap(m))
  }

  ghost predicate Dumps(codec: Codec, m: Mapping) {
    exists front :: DumpsAs(codec, m, front)
  }

  /** The contract on YAML: dumping ends in a newline, writes neither a bare
      fence line nor a carriage return, and loading gives the mapping back. */
  ghost predicate Faithful(codec: Codec) {
    forall m :: Dumps(codec, m)
  }

  // ----- Writing -----

  function Put(m: Mapping, key: Key, value: Option<Yaml>): Mapping {
    if value.Some? then m[key := value.value] else m
  }

  function TextOf(value: Option<string>): Option<Yaml> {
    if value.Some? then Some(YText(value.value)) else None
  }

  function StatusName(status: Status): string {
    match status case Proposed => "proposed" case Accepted => "accepted" case Superseded => "superseded" case Rejected => "rejected"
  }

  function KindName(kind: Kind): string {
    match kind case Spec => "spec" case File => "file" case Commit => "commit"
  }

  function Each<A>(write: A -> Yaml, values: seq<A>): (items: seq<Yaml>)
    ensures |items| == |values| && forall i :: 0 <= i < |values| ==> items[i] == write(values[i])
  {
    seq(|values|, i requires 0 <= i < |values| => write(values[i]))
  }

  /** A list is written unless it is empty. */
  function ListOf<A>(write: A -> Yaml, values: seq<A>): Option<Yaml> {
    if values == [] then None else Some(YList(Each(write, values)))
  }

  function TextItem(text: string): Yaml {
    YText(text)
  }

  function TextsOf(values: seq<string>): Option<Yaml> {
    ListOf(TextItem, values)
  }

  /** A sub mapping is written unless it is empty. */
  function Block(m: Mapping): Option<Yaml> {
    if m == map[] then None else Some(YMap(m))
  }

  function ContextMap(c: Context): Mapping {
    Put(Put(map[], KProblem, TextOf(c.problem)), KTriggeringChange, TextOf(c.triggeringChange))
  }

  function AlternativeMap(a: Alternative): Mapping {
    Put(Put(map[], KTitle, TextOf(a.title)), KRejectionReason, TextOf(a.rejectionReason))
  }

  function AlternativeItem(a: Alternative): Yaml {
    YMap(AlternativeMap(a))
  }

  function AlternativesOf(alternatives: seq<Alternative>): Option<Yaml> {
    ListOf(AlternativeItem, alternatives)
  }

  function DecisionMap(d: Decision): Mapping {
    Put(Put(map[], KChosen, TextOf(d.chosen)), KAlternatives, AlternativesOf(d.alternatives))
  }

  function ConsequencesMap(c: Consequences): Mapping {
    Put(Put(map[], KPositive, TextsOf(c.positive)), KNegative, TextsOf(c.negative))
  }

  function EvidenceMap(e: Evidence): Mapping {
    var kind := if e.kind.Some? then Some(YText(KindName(e.kind.value))) else None;
    Put(Put(Put(map[], KKind, kind), KTarget, TextOf(e.target)), KNote, TextOf(e.note))
  }

  function EvidenceItem(e: Evidence): Yaml {
    YMap(EvidenceMap(e))
  }

  function EvidenceOf(evidence: Option<seq<Evidence>>): Option<Yaml> {
    if evidence.None? then None else ListOf(EvidenceItem, evidence.value)
  }

  function StatusOf(status: Option<Status>): Option<Yaml> {
    if status.Some? then Some(YText(StatusName(status.value))) else None
  }

  function ContextOf(c: Option<Context>): Option<Yaml> {
    if c.Some? then Block(ContextMap(c.value)) else None
  }

  function DecisionOf(d: Option<Decision>): Option<Yaml> {
    if d.Some? then Block(DecisionMap(d.value)) else None
  }

  function ConsequencesOf(c: Option<Consequences>): Option<Yaml> {
    if c.Some? then Block(ConsequencesMap(c.value)) else None
  }

  function Heading(r: Record, m: Mapping): Mapping {
    Put(Put(Put(Put(m, KId, TextOf(r.id)), KTitle, TextOf(r.title)), KStatus, StatusOf(r.status)), KDate, TextOf(r.date))
  }

  function Reasons(r: Record, m: Mapping): Mapping {
    Put(Put(Put(Put(m, KContext, ContextOf(r.context)), KDecision, DecisionOf(r.decision)), KWhy, TextsOf(r.why)),
        KRationaleSummary, TextOf(r.rationaleSummary))
  }

  function Results(r: Record, m: Mapping): Mapping {
    Put(Put(Put(Put(m, KConsequences, ConsequencesOf(r.consequences)), KEvidence, EvidenceOf(r.evidence)), KTags, TextsOf(r.tags)),
        KSupersedes, TextOf(r.supersedes))
  }

  function RecordMap(r: Record): Mapping {
    Results(r, Reasons(r, Heading(r, map[])))
  }

  method WriteHeading(r: Record) returns (data: Mapping)
    ensures data == Heading(r, map[])
  {
    data := map[];
    if r.id.Some? { data := data[KId := YText(r.id.value)]; }
    if r.title.Some? { data := data[KTitle := YText(r.title.value)]; }
    if r.status.Some? { data := data[KStatus := YText(StatusName(r.status.value))]; }
    if r.date.Some? { data := data[KDate := YText(r.date.value)]; }
  }

  method WriteContext(c: Context, m: Mapping) returns (data: Mapping)
    ensures data == Put(m, KContext, Block(ContextMap(c)))
  {
    data := m;
    var context: Mapping := map[];
    if c.problem.Some? { context := context[KProblem := YText(c.problem.value)]; }
    if c.triggeringChange.Some? { context := context[KTriggeringChange := YText(c.triggeringChange.value)]; }
    if context != map[] { data := data[KContext := YMap(context)]; }
  }

  /** The list of alternatives, one item a time; an item may stay empty. */
  method WriteDecision(d: Decision, m: Mapping) returns (data: Mapping)
    ensures data == Put(m, KDecision, Block(DecisionMap(d)))
  {
    data := m;
    var decision: Mapping := map[];
    if d.chosen.Some? { decision := decision[KChosen := YText(d.chosen.value)]; }
    var items := [];
    for i := 0 to |d.alternatives|
      invariant |items| == i && forall k :: 0 <= k < i ==> items[k] == AlternativeItem(d.alternatives[k])
    {
      var alternative := d.alternatives[i];
      var item: Mapping := map[];
      if alternative.title.Some? { item := item[KTitle := YText(alternative.title.value)]; }
      if alternative.rejectionReason.Some? { item := item[KRejectionReason := YText(alternative.rejectionReason.value)]; }
      items := items + [YMap(item)];
    }
    if items != [] {
      assert items == Each(AlternativeItem, d.alternatives);
      decision := decision[KAlternatives := YList(items)];
    }
    if decision != map[] { data := data[KDecision := YMap(decision)]; }
  }

  method WriteReasons(r: Record, m: Mapping) returns (data: Mapping)
    ensures data == Reasons(r, m)
  {
    data := m;
    if r.context.Some? { data := WriteContext(r.context.value, data); }
    if r.decision.Some? { data := WriteDecision(r.decision.value, data); }
    if r.why != [] { data := Put(data, KWhy, TextsOf(r.why)); }
    if r.rationaleSummary.Some? { data := data[KRationaleSummary := YText(r.rationaleSummary.value)]; }
  }

  method WriteConsequences(c: Consequences, m: Mapping) returns (data: Mapping)
    ensures data == Put(m, KConsequences, Block(ConsequencesMap(c)))
  {
    data := m;
    var consequences: Mapping := map[];
    if c.positive != [] { consequences := Put(consequences, KPositive, TextsOf(c.positive)); }
    if c.negative != [] { consequences := Put(consequences, KNegative, TextsOf(c.negative)); }
    if consequences != map[] { data := data[KConsequences := YMap(consequences)]; }
  }

  method WriteEvidence(es: seq<Evidence>, m: Mapping) returns (data: Mapping)
    ensures data == Put(m, KEvidence, EvidenceOf(Some(es)))
  {
    data := m;
    var items := [];
    for i := 0 to |es|
      invariant |items| == i && forall k :: 0 <= k < i ==> items[k] == EvidenceItem(es[k])
    {
      var entry := es[i];
      var item: Mapping := map[];
      if entry.kind.Some? { item := item[KKind := YText(KindName(entry.kind.value))]; }
      if entry.target.Some? { item := item[KTarget := YText(entry.target.value)]; }
      if entry.note.Some? { item := item[KNote := YText(entry.note.value)]; }
      items := items + [YMap(item)];
    }
    if es != [] {
      assert items == Each(EvidenceItem, es);
      data := data[KEvidence := YList(items)];
    }
  }

  method WriteResults(r: Record, m: Mapping) returns (data: Mapping)
    ensures data == Results(r, m)
  {
    data := m;
    if r.consequences.Some? { data := WriteConsequences(r.consequences.value, data); }
    if r.evidence.Some? { data := WriteEvidence(r.evidence.value, data); }
    if r.tags != [] { data := Put(data, KTags, TextsOf(r.tags)); }
    if r.supersedes.Some? { data := data[KSupersedes := YText(r.supersedes.value)]; }
  }

  /** `_record_to_mapping`: one dictionary filled key by key. */
  method RecordToMapping(r: Record) returns (data: Mapping)
    ensures data == RecordMap(r)
  {
    data := WriteHeading(r);
    data := WriteReasons(r, data);
    data := WriteResults(r, data);
  }

  function BodyText(r: Record): string {
    if r.body.Some? then r.body.value else ""
  }

  /** `serialize_record`. */
  function Serialize(codec: Codec, r: Record): string {
    FENCE + "\n" + codec.dump(RecordMap(r)) + FENCE + "\n\n" + BodyText(r)
  }

  // ----- Reading -----

  datatype Parsed<+T> = Ok(value: T) | Bad

  function Get(m: Mapping, key: Key): Option<Yaml> {
    if key in m then Some(m[key]) else None
  }

  /** A missing key and a null both read as an absent optional field. */
  predicate Absent(y: Option<Yaml>) {
    y.None? || y.value.YNull?
  }

  function ReadText(y: Option<Yaml>): Parsed<Option<string>> {
    if Absent(y) then Ok(None)
    else if y.value.YText? then Ok(Some(y.value.text))
    else Bad
  }

  /** Every item of a list parses, or the list is refused. */
  function Collect<A>(parse: Yaml -> Parsed<A>, items: seq<Yaml>): Parsed<seq<A>> {
    if items == [] then Ok([])
    else
      var rest := Collect(parse, items[1..]);
      if parse(items[0]).Bad? || rest.Bad? then Bad else Ok([parse(items[0]).value] + rest.value)
  }

  /** A missing list is empty; a null is not a list. */
  function ReadList<A>(parse: Yaml -> Parsed<A>, y: Option<Yaml>): Parsed<seq<A>> {
    if y.None? then Ok([])
    else if y.value.YList? then Collect(parse, y.value.items)
    else Bad
  }

  function ParseText(y: Yaml): Parsed<string> {
    if y.YText? then Ok(y.text) else Bad
  }

  function ReadTexts(y: Option<Yaml>): Parsed<seq<string>> {
    ReadList(ParseText, y)
  }

  function ParseStatus(name: string): Option<Status> {
    if name == "proposed" then Some(Proposed) else if name == "accepted" then Some(Accepted)
    else if name == "superseded" then Some(Superseded) else if name == "rejected" then Some(Rejected) else None
  }

  function ParseKind(name: string): Option<Kind> {
    if name == "spec" then Some(Spec) else if name == "file" then Some(File)
    else if name == "commit" then Some(Commit) else None
  }

  /** Only the names that are written are read, each as its own value. */
  lemma NamesExactly(name: string, status: Status, kind: Kind)
    ensures ParseStatus(name) == Some(status) <==> name == StatusName(status)
    ensures ParseKind(name) == Some(kind) <==> name == KindName(kind)
  {
    assert StatusName(Proposed)[0] == 'p' && StatusName(Accepted)[0] == 'a' && StatusName(Superseded)[0] == 's' && StatusName(Rejected)[0] == 'r';
    assert KindName(Spec)[0] == 's' && KindName(File)[0] == 'f' && KindName(Commit)[0] == 'c';
  }

  function ReadStatus(y: Option<Yaml>): Parsed<Option<Status>> {
    if Absent(y) then Ok(None)
    else if y.value.YText? && ParseStatus(y.value.text).Some? then Ok(ParseStatus(y.value.text))
    else Bad
  }

  function ReadKind(y: Option<Yaml>): Parsed<Option<Kind>> {
    if Absent(y) then Ok(None)
    else if y.value.YText? && ParseKind(y.value.text).Some? then Ok(ParseKind(y.value.text))
    else Bad
  }

  function ReadContext(y: Option<Yaml>): Parsed<Option<Context>> {
    if Absent(y) then Ok(None)
    else if !y.value.YMap? then Bad
    else
      var problem := ReadText(Get(y.value.entries, KProblem));
      var change := ReadText(Get(y.value.entries, KTriggeringChange));
      if problem.Bad? || change.Bad? then Bad else Ok(Some(Context(problem.value, change.value)))
  }

  function ReadAlternative(y: Yaml): Parsed<Alternative> {
    if !y.YMap? then Bad
    else
      var title := ReadText(Get(y.entries, KTitle));
      var reason := ReadText(Get(y.entries, KRejectionReason));
      if title.Bad? || reason.Bad? then Bad else Ok(Alternative(title.value, reason.value))
  }

  function ReadAlternatives(y: Option<Yaml>): Parsed<seq<Alternative>> {
    ReadList(ReadAlternative, y)
  }

  function ReadDecision(y: Option<Yaml>): Parsed<Option<Decision>> {
    if Absent(y) then Ok(None)
    else if !y.value.YMap? then Bad
    else
      var chosen := ReadText(Get(y.value.entries, KChosen));
      var alternatives := ReadAlternatives(Get(y.value.entries, KAlternatives));
      if chosen.Bad? || alternatives.Bad? then Bad else Ok(Some(Decision(chosen.value, alternatives.value)))
  }

  function ReadConsequences(y: Option<Yaml>): Parsed<Option<Consequences>> {
    if Absent(y) then Ok(None)
    else if !y.value.YMap? then Bad
    else
      var positive := ReadTexts(Get(y.value.entries, KPositive));
      var negative := ReadTexts(Get(y.value.entries, KNegative));
      if positive.Bad? || negative.Bad? then Bad else Ok(Some(Consequences(positive.value, negative.value)))
  }

  function ReadEvidenceItem(y: Yaml): Parsed<Evidence> {
    if !y.YMap? then Bad
    else
      var kind := ReadKind(Get(y.entries, KKind));
      var target := ReadText(Get(y.entries, KTarget));
      var note := ReadText(Get(y.entries, KNote));
      if kind.Bad? || target.Bad? || note.Bad? then Bad else Ok(Evidence(kind.value, target.value, note.value))
  }

  function ReadEvidence(y: Option<Yaml>): Parsed<Option<seq<Evidence>>> {
    if Absent(y) then Ok(None)
    else
      var items := ReadList(ReadEvidenceItem, y);
      if items.Bad? then Bad else Ok(Some(items.value))
  }

  /** Every field reads, or the whole mapping is refused. */
  predicate FieldsRead(m: Mapping) {
    && ReadText(Get(m, KId)).Ok? && ReadText(Get(m, KTitle)).Ok? && ReadStatus(Get(m, KStatus)).Ok?
    && ReadText(Get(m, KDate)).Ok? && ReadContext(Get(m, KContext)).Ok? && ReadDecision(Get(m, KDecision)).Ok?
    && ReadTexts(Get(m, KWhy)).Ok? && ReadText(Get(m, KRationaleSummary)).Ok?
    && ReadConsequences(Get(m, KConsequences)).Ok? && ReadEvidence(Get(m, KEvidence)).Ok?
    && ReadTexts(Get(m, KTags)).Ok? && ReadText(Get(m, KSupersedes)).Ok?
  }

  /** Validation of the mapping and the domain record built from it. */
  function ReadRecord(m: Mapping, body: string): Parsed<Record> {
    if !FieldsRead(m) then Bad
    else Ok(Record(
      ReadText(Get(m, KId)).value, ReadText(Get(m, KTitle)).value, ReadStatus(Get(m, KStatus)).value,
      ReadText(Get(m, KDate)).value, Some(body), ReadContext(Get(m, KContext)).value,
      ReadDecision(Get(m, KDecision)).value, ReadTexts(Get(m, KWhy)).value, ReadText(Get(m, KRationaleSummary)).value,
      ReadConsequences(Get(m, KConsequences)).value, ReadEvidence(Get(m, KEvidence)).value,
      ReadTexts(Get(m, KTags)).value, ReadText(Get(m, KSupersedes)).value))
  }

  // ----- The fences -----

  /** The first fence line from `i` on, or the number of lines. */
  function NextFence(lines: seq<string>, i: nat): (j: nat)
    requires i <= |lines|
    ensures i <= j <= |lines| && (j < |lines| ==> lines[j] == FENCE) && FENCE !in lines[i..j]
    decreases |lines| - i
  {
    if i == |lines| || lines[i] == FENCE then i
    else
      assert forall j :: i < j <= |lines| ==> lines[i..j] == [lines[i]] + lines[i + 1..j];
      NextFence(lines, i + 1)
  }

  datatype Split = Split(front: string, body: string)

  function SplitLines(lines: seq<string>): Option<Split> {
    if lines == [] || lines[0] != FENCE || NextFence(lines, 1) == |lines| then None
    else
      var closing := NextFence(lines, 1);
      var rest := lines[closing + 1..];
      var bodyLines := if rest != [] && rest[0] == "" then rest[1..] else rest;
      Some(Split(Join("\n", lines[1..closing]), Join("\n", bodyLines)))
  }

  /** `_split_frontmatter` with its search for the closing fence. */
  method SplitFrontmatter(text: string) returns (split: Option<Split>)
    ensures split == SplitLines(Lines(text))
  {
    var lines := Lines(text);
    if lines[0] != FENCE {
      return None;
    }
    var closing := |lines|;
    for index := 1 to |lines|
      invariant closing == |lines| && NextFence(lines, index) == NextFence(lines, 1)
    {
      if lines[index] == FENCE {
        closing := index;
        break;
      }
    }
    if closing == |lines| {
      return None;
    }
    var body := lines[closing + 1..];
    if body != [] && body[0] == "" {
      body := body[1..];
    }
    return Some(Split(Join("\n", lines[1..closing]), Join("\n", body)));
  }

  /** Reading a file's text: line endings, fences, YAML, validation. */
  function Read(codec: Codec, text: string): Parsed<Record> {
    var split := SplitLines(Lines(LineFeeds(text)));
    if split.None? then Bad
    else
      var data := codec.load(split.value.front);
      if data.None? || !data.value.YMap? then Bad else ReadRecord(data.value.entries, split.value.body)
  }

  // ----- Normal form and the round trip -----

  function NormalContext(c: Option<Context>): Option<Context> {
    if c.Some? && c.value.problem.None? && c.value.triggeringChange.None? then None else c
  }

  function NormalDecision(d: Option<Decision>): Option<Decision> {
    if d.Some? && d.value.chosen.None? && d.value.alternatives == [] then None else d
  }

  function NormalConsequences(c: Option<Consequences>): Option<Consequences> {
    if c.Some? && c.value.positive == [] && c.value.negative == [] then None else c
  }

  function NormalEvidence(e: Option<seq<Evidence>>): Option<seq<Evidence>> {
    if e.Some? && e.value == [] then None else e
  }

  /** What survives on disk: empty blocks are absent, the body is present and
      its lines end in LF; everything else is untouched. */
  function Normal(r: Record): Record {
    r.(body := Some(LineFeeds(BodyText(r))), context := NormalContext(r.context), decision := NormalDecision(r.decision),
       consequences := NormalConsequences(r.consequences), evidence := NormalEvidence(r.evidence))
  }

  lemma {:induction false} CollectEach<A>(write: A -> Yaml, parse: Yaml -> Parsed<A>, values: seq<A>)
    requires forall i :: 0 <= i < |values| ==> parse(write(values[i])) == Ok(values[i])
    ensures Collect(parse, Each(write, values)) == Ok(values)
  {
    if values != [] {
      CollectEach(write, parse, values[1..]);
      assert Each(write, values)[1..] == Each(write, values[1..]);
      assert [values[0]] + values[1..] == values;
    }
  }

  lemma TextsReadBack(values: seq<string>)
    ensures ReadTexts(TextsOf(values)) == Ok(values)
  {
    CollectEach(TextItem, ParseText, values);
  }

  lemma ContextReadsBack(c: Option<Context>)
    ensures ReadContext(ContextOf(c)) == Ok(NormalContext(c))
  {
    if c.Some? {
      var m := ContextMap(c.value);
      assert Get(m, KProblem) == TextOf(c.value.problem);
      assert Get(m, KTriggeringChange) == TextOf(c.value.triggeringChange);
      assert m == map[] <==> c.value.problem.None? && c.value.triggeringChange.None? by {
        assert m == map[] ==> KProblem !in m && KTriggeringChange !in m;
      }
    }
  }

  lemma AlternativeReadsBack(a: Alternative)
    ensures ReadAlternative(AlternativeItem(a)) == Ok(a)
  {
    assert Get(AlternativeMap(a), KTitle) == TextOf(a.title);
    assert Get(AlternativeMap(a), KRejectionReason) == TextOf(a.rejectionReason);
  }

  lemma AlternativesReadBack(alternatives: seq<Alternative>)
    ensures ReadAlternatives(AlternativesOf(alternatives)) == Ok(alternatives)
  {
    forall i | 0 <= i < |alternatives|
      ensures ReadAlternative(AlternativeItem(alternatives[i])) == Ok(alternatives[i])
    {
      AlternativeReadsBack(alternatives[i]);
    }
    CollectEach(AlternativeItem, ReadAlternative, alternatives);
  }

  lemma DecisionReadsBack(d: Option<Decision>)
    ensures ReadDecision(DecisionOf(d)) == Ok(NormalDecision(d))
  {
    if d.Some? {
      var m := DecisionMap(d.value);
      AlternativesReadBack(d.value.alternatives);
      assert Get(m, KChosen) == TextOf(d.value.chosen);
      assert Get(m, KAlternatives) == AlternativesOf(d.value.alternatives);
      assert m == map[] <==> d.value.chosen.None? && d.value.alternatives == [] by {
        assert m == map[] ==> KChosen !in m && KAlternatives !in m;
      }
    }
  }

  lemma ConsequencesReadBack(c: Option<Consequences>)
    ensures ReadConsequences(ConsequencesOf(c)) == Ok(NormalConsequences(c))
  {
    if c.Some? {
      var m := ConsequencesMap(c.value);
      TextsReadBack(c.value.positive);
      TextsReadBack(c.value.negative);
      assert Get(m, KPositive) == TextsOf(c.value.positive);
      assert Get(m, KNegative) == TextsOf(c.value.negative);
      assert m == map[] <==> c.value.positive == [] && c.value.negative == [] by {
        assert m == map[] ==> KPositive !in m && KNegative !in m;
      }
    }
  }

  lemma EvidenceItemReadsBack(e: Evidence)
    ensures ReadEvidenceItem(EvidenceItem(e)) == Ok(e)
  {
    assert Get(EvidenceMap(e), KTarget) == TextOf(e.target);
    assert Get(EvidenceMap(e), KNote) == TextOf(e.note);
  }

  lemma EvidenceReadsBack(evidence: Option<seq<Evidence>>)
    ensures ReadEvidence(EvidenceOf(evidence)) == Ok(NormalEvidence(evidence))
  {
    if evidence.Some? {
      var es := evidence.value;
      forall i | 0 <= i < |es| ensures ReadEvidenceItem(EvidenceItem(es[i])) == Ok(es[i]) {
        EvidenceItemReadsBack(es[i]);
      }
      CollectEach(EvidenceItem, ReadEvidenceItem, es);
    }
  }

  predicate HasHeading(m: Mapping, r: Record) {
    && Get(m, KId) == TextOf(r.id) && Get(m, KTitle) == TextOf(r.title)
    && Get(m, KStatus) == StatusOf(r.status) && Get(m, KDate) == TextOf(r.date)
  }

  predicate HasReasons(m: Mapping, r: Record) {
    && Get(m, KContext) == ContextOf(r.context) && Get(m, KDecision) == DecisionOf(r.decision)
    && Get(m, KWhy) == TextsOf(r.why) && Get(m, KRationaleSummary) == TextOf(r.rationaleSummary)
  }

  predicate HasResults(m: Mapping, r: Record) {
    && Get(m, KConsequences) == ConsequencesOf(r.consequences) && Get(m, KEvidence) == EvidenceOf(r.evidence)
    && Get(m, KTags) == TextsOf(r.tags) && Get(m, KSupersedes) == TextOf(r.supersedes)
  }

  /** The twelve keys do not disturb one another. */
  lemma HeadingEntries(r: Record)
    ensures HasHeading(Heading(r, map[]), r)
    ensures Heading(r, map[]).Keys <= {KId, KTitle, KStatus, KDate}
  {}

  /** A key of another group leaves a group alone. */
  lemma PutKeepsHeading(m: Mapping, r: Record, key: Key, value: Option<Yaml>)
    requires HasHeading(m, r) && key != KId && key != KTitle && key != KStatus && key != KDate
    ensures HasHeading(Put(m, key, value), r)
  {}

  lemma PutKeepsReasons(m: Mapping, r: Record, key: Key, value: Option<Yaml>)
    requires HasReasons(m, r) && key != KContext && key != KDecision && key != KWhy && key != KRationaleSummary
    ensures HasReasons(Put(m, key, value), r)
  {}

  lemma ReasonsEntries(r: Record, m: Mapping)
    requires KContext !in m && KDecision !in m && KWhy !in m && KRationaleSummary !in m
    ensures HasReasons(Reasons(r, m), r)
    ensures Reasons(r, m).Keys <= m.Keys + {KContext, KDecision, KWhy, KRationaleSummary}
  {}

  lemma ReasonsKeepHeading(r: Record, m: Mapping)
    requires HasHeading(m, r)
    ensures HasHeading(Reasons(r, m), r)
  {
    var a := Put(m, KContext, ContextOf(r.context));
    var b := Put(a, KDecision, DecisionOf(r.decision));
    PutKeepsHeading(m, r, KContext, ContextOf(r.context));
    PutKeepsHeading(a, r, KDecision, DecisionOf(r.decision));
    PutKeepsHeading(b, r, KWhy, TextsOf(r.why));
    PutKeepsHeading(Put(b, KWhy, TextsOf(r.why)), r, KRationaleSummary, TextOf(r.rationaleSummary));
  }

  lemma ResultsEntries(r: Record, m: Mapping)
    requires KConsequences !in m && KEvidence !in m && KTags !in m && KSupersedes !in m
    ensures HasResults(Results(r, m), r)
  {}

  lemma ResultsKeepTheRest(r: Record, m: Mapping)
    requires HasHeading(m, r) && HasReasons(m, r)
    ensures HasHeading(Results(r, m), r) && HasReasons(Results(r, m), r)
  {
    var a := Put(m, KConsequences, ConsequencesOf(r.consequences));
    var b := Put(a, KEvidence, EvidenceOf(r.evidence));
    var c := Put(b, KTags, TextsOf(r.tags));
    PutKeepsHeading(m, r, KConsequences, ConsequencesOf(r.consequences));
    PutKeepsReasons(m, r, KConsequences, ConsequencesOf(r.consequences));
    PutKeepsHeading(a, r, KEvidence, EvidenceOf(r.evidence));
    PutKeepsReasons(a, r, KEvidence, EvidenceOf(r.evidence));
    PutKeepsHeading(b, r, KTags, TextsOf(r.tags));
    PutKeepsReasons(b, r, KTags, TextsOf(r.tags));
    PutKeepsHeading(c, r, KSupersedes, TextOf(r.supersedes));
    PutKeepsReasons(c, r, KSupersedes, TextOf(r.supersedes));
  }

  lemma FieldsReadBack(m: Mapping, r: Record, body: string)
    requires Get(m, KId) == TextOf(r.id) && Get(m, KTitle) == TextOf(r.title)
    requires Get(m, KDate) == TextOf(r.date) && Get(m, KRationaleSummary) == TextOf(r.rationaleSummary)
    requires Get(m, KSupersedes) == TextOf(r.supersedes)
    requires ReadStatus(Get(m, KStatus)) == Ok(r.status)
    requires ReadContext(Get(m, KContext)) == Ok(NormalContext(r.context))
    requires ReadDecision(Get(m, KDecision)) == Ok(NormalDecision(r.decision))
    requires ReadTexts(Get(m, KWhy)) == Ok(r.why) && ReadTexts(Get(m, KTags)) == Ok(r.tags)
    requires ReadConsequences(Get(m, KConsequences)) == Ok(NormalConsequences(r.consequences))
    requires ReadEvidence(Get(m, KEvidence)) == Ok(NormalEvidence(r.evidence))
    ensures ReadRecord(m, body) == Ok(Normal(r).(body := Some(body)))
  {}

  lemma StatusReadsBack(status: Option<Status>)
    ensures ReadStatus(StatusOf(status)) == Ok(status)
  {}

  lemma MappingReadsBack(r: Record, body: string)
    ensures ReadRecord(RecordMap(r), body) == Ok(Normal(r).(body := Some(body)))
  {
    var h := Heading(r, map[]);
    HeadingEntries(r);
    ReasonsEntries(r, h);
    ReasonsKeepHeading(r, h);
    ResultsEntries(r, Reasons(r, h));
    ResultsKeepTheRest(r, Reasons(r, h));
    StatusReadsBack(r.status);
    TextsReadBack(r.why);
    TextsReadBack(r.tags);
    ContextReadsBack(r.context);
    DecisionReadsBack(r.decision);
    ConsequencesReadBack(r.consequences);
    EvidenceReadsBack(r.evidence);
    FieldsReadBack(RecordMap(r), r, body);
  }

  lemma FencedLines(front: string, body: string)
    ensures Lines(FENCE + "\n" + front + "\n" + FENCE + "\n\n" + body)
         == [FENCE] + Lines(front) + [FENCE] + [""] + Lines(body)
  {
    var upper := FENCE + "\n" + front;
    var closed := upper + "\n" + FENCE;
    assert FENCE + "\n" + front + "\n" + FENCE + "\n\n" + body == (closed + "\n" + "") + "\n" + body;
    LinesAppend(FENCE, front);
    LinesAppend(upper, FENCE);
    LinesAppend(closed, "");
    LinesAppend(closed + "\n" + "", body);
    OneLine(FENCE);
    OneLine("");
  }

  lemma {:induction false} NextFenceAt(lines: seq<string>, i: nat, front: seq<string>)
    requires FENCE !in front && i + |front| < |lines|
    requires lines[i..i + |front|] == front && lines[i + |front|] == FENCE
    ensures NextFence(lines, i) == i + |front|
    decreases |front|
  {
    if front != [] {
      assert lines[i] == front[0];
      assert lines[i + 1..i + |front|] == front[1..];
      NextFenceAt(lines, i + 1, front[1..]);
    }
  }

  /** The search stops at the first fence line after the opening one, so a
      fence line inside the body is body. */
  lemma SplitFenced(front: seq<string>, body: seq<string>)
    requires FENCE !in front && body != []
    ensures SplitLines([FENCE] + front + [FENCE] + [""] + body) == Some(Split(Join("\n", front), Join("\n", body)))
  {
    var lines := [FENCE] + front + [FENCE] + [""] + body;
    var closing := 1 + |front|;
    assert lines[1..closing] == front;
    NextFenceAt(lines, 1, front);
    assert lines[closing + 1..] == [""] + body;
    assert lines[closing + 1..][1..] == body;
  }

  /** Reading a written record gives its normal form: for every record and
      every body, fence lines and carriage returns included. */
  lemma ReadSerialized(codec: Codec, r: Record)
    requires Faithful(codec)
    ensures Read(codec, Serialize(codec, r)) == Ok(Normal(r))
  {
    var m := RecordMap(r);
    assert Dumps(codec, m);
    var front :| DumpsAs(codec, m, front);
    var head := FENCE + "\n" + front + "\n" + FENCE + "\n\n";
    assert Serialize(codec, r) == head + BodyText(r);
    LineFeedsKeeps(head, BodyText(r));
    var body := LineFeeds(BodyText(r));
    FencedLines(front, body);
    SplitFenced(Lines(front), Lines(body));
    JoinLines(front);
    JoinLines(body);
    MappingReadsBack(r, LineFeeds(BodyText(r)));
  }

  lemma NormalIdempotent(r: Record)
    ensures Normal(Normal(r)) == Normal(r)
  {
    LineFeedsIdempotent(BodyText(r));
  }

  /** What survives a round trip: a body, possibly empty, and no empty block. */
  predicate Tidy(r: Record) {
    && r.body.Some?
    && (r.context.Some? ==> r.context.value.problem.Some? || r.context.value.triggeringChange.Some?)
    && (r.decision.Some? ==> r.decision.value.chosen.Some? || r.decision.value.alternatives != [])
    && (r.consequences.Some? ==> r.consequences.value.positive != [] || r.consequences.value.negative != [])
    && (r.evidence.Some? ==> r.evidence.value != [])
  }

  lemma NormalExactly(r: Record)
    ensures r == Normal(r) <==> Tidy(r) && '\r' !in BodyText(r)
  {
    var body := BodyText(r);
    LineFeedsIdempotent(body);
    assert body + "" == body;
    if '\r' !in body { LineFeedsKeeps(body, ""); }
  }

  /** A record reads back equal exactly when it has a body, no empty block, and
      no carriage return in the body. */
  lemma ReadsBackEqualExactly(codec: Codec, r: Record)
    requires Faithful(codec)
    ensures Read(codec, Serialize(codec, r)) == Ok(r) <==> Tidy(r) && '\r' !in BodyText(r)
  {
    ReadSerialized(codec, r);
    NormalExactly(r);
  }

  /** A record without a body reads back with an empty one. */
  lemma BodilessReadsBackOtherwise(codec: Codec, r: Record)
    requires Faithful(codec) && r == Record(Some("DM-1"), None, None, None, None, None, None, [], None, None, None, [], None)
    ensures Read(codec, Serialize(codec, r)) == Ok(r.(body := Some(""))) && r.body == None
  {
    ReadSerialized(codec, r);
  }

  // ----- The digest check -----

  function Fold(f: string -> string, value: Option<string>): Option<string> {
    if value.Some? then Some(f(value.value)) else None
  }

  function FoldAll(f: string -> string, values: seq<string>): seq<string> {
    seq(|values|, i requires 0 <= i < |values| => f(values[i]))
  }

  function FoldAlternatives(f: string -> string, xs: seq<Alternative>): (ys: seq<Alternative>)
    ensures |ys| == |xs|
  {
    seq(|xs|, i requires 0 <= i < |xs| => Alternative(Fold(f, xs[i].title), Fold(f, xs[i].rejectionReason)))
  }

  function FoldEvidence(f: string -> string, xs: seq<Evidence>): (ys: seq<Evidence>)
    ensures |ys| == |xs|
  {
    seq(|xs|, i requires 0 <= i < |xs| => xs[i].(target := Fold(f, xs[i].target), note := Fold(f, xs[i].note)))
  }

  /** `canonical_record_mapping` with every text normalized: absent blocks stay
      null and empty ones stay empty, so they hash differently. */
  function CanonicalRecord(f: string -> string, r: Record): Record {
    Record(
      Fold(f, r.id), Fold(f, r.title), r.status, Fold(f, r.date), Fold(f, r.body),
      if r.context.None? then None else Some(Context(Fold(f, r.context.value.problem), Fold(f, r.context.value.triggeringChange))),
      if r.decision.None? then None
      else Some(Decision(Fold(f, r.decision.value.chosen), FoldAlternatives(f, r.decision.value.alternatives))),
      FoldAll(f, r.why), Fold(f, r.rationaleSummary),
      if r.consequences.None? then None
      else Some(Consequences(FoldAll(f, r.consequences.value.positive), FoldAll(f, r.consequences.value.negative))),
      if r.evidence.None? then None else Some(FoldEvidence(f, r.evidence.value)),
      FoldAll(f, r.tags), Fold(f, r.supersedes))
  }

  ghost predicate Injective(hash: Record -> string) {
    forall a, b :: hash(a) == hash(b) ==> a == b
  }

  lemma CanonicalOfNormal(f: string -> string, r: Record)
    requires f(LineFeeds(BodyText(r))) == f(BodyText(r))
    ensures CanonicalRecord(f, Normal(r)) == CanonicalRecord(f, r) <==> Tidy(r)
  {
    var a, b := CanonicalRecord(f, Normal(r)), CanonicalRecord(f, r);
    assert a.body == b.body <==> r.body.Some?;
    assert a.context == b.context <==> NormalContext(r.context) == r.context;
    assert a.decision == b.decision <==> NormalDecision(r.decision) == r.decision;
    assert a.consequences == b.consequences <==> NormalConsequences(r.consequences) == r.consequences;
    assert a.evidence == b.evidence <==> NormalEvidence(r.evidence) == r.evidence;
  }

  /** The digest check at ingest. The digest hashes normalized text, so carriage
      returns in a body do no harm; with a hash that tells records apart the
      check passes exactly for tidy records. */
  lemma DigestMatchesExactly(codec: Codec, r: Record, f: string -> string, hash: Record -> string)
    requires Faithful(codec)
    requires f(LineFeeds(BodyText(r))) == f(BodyText(r))
    ensures var read := Read(codec, Serialize(codec, r));
      && read.Ok?
      && (Tidy(r) ==> hash(CanonicalRecord(f, read.value)) == hash(CanonicalRecord(f, r)))
      && (Injective(hash) ==> (hash(CanonicalRecord(f, read.value)) == hash(CanonicalRecord(f, r)) <==> Tidy(r)))
  {
    ReadSerialized(codec, r);
    CanonicalOfNormal(f, r);
  }
}
