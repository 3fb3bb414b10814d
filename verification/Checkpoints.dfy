/** Checkpoints: their fields, how text in them is sanitized, their content-derived revision, and
    the encoding that holds its own length. Text is valid Unicode; a char is one character. */
module Checkpoints {
  import opened Wrappers
  import opened Redaction

  const MAX_CHECKPOINT_BYTES := 16 * 1024
  const DEFAULT_REPOSITORY_RETENTION := "30"
  const DEFAULT_TRANSCRIPT_RETENTION := "7"
  const MAX_RETENTION_DAYS := 3652059

  /** Nanoseconds since 1970. */
  type Time = int
  const DAY: Time := 24 * 3600 * 1_000_000_000
  /** The first instant of the year 10000. */
  const END_OF_TIME: Time := 253_402_300_800 * 1_000_000_000

  datatype Status = Draft | Approved | Launching | Completed | Expired
  datatype Source = RepositoryFirst | TranscriptAssisted
  /** The program's labels, and the empty label of a field that was never set. */
  datatype Provenance = NoProvenance | LocalObserved | UserConfirmed | UnknownProvenance
  datatype Completeness = NoCompleteness | Complete | Partial | UnknownCompleteness

  datatype Evidence<T> = Evidence(value: T, provenance: Provenance, completeness: Completeness)

  datatype Divergence = Divergence(ahead: int, behind: int)
  datatype DiffStatistics = DiffStatistics(filesChanged: int, insertions: int, deletions: int, binaryFiles: int)

  datatype RepositoryState = RepositoryState(
    branch: Evidence<string>, head: Evidence<string>, upstream: Evidence<Option<Divergence>>,
    staged: Evidence<seq<string>>, modified: Evidence<seq<string>>, untracked: Evidence<seq<string>>,
    diff: Evidence<DiffStatistics>, configuredCommands: Evidence<seq<string>>)

  datatype ValidationEvidence = ValidationEvidence(
    command: string, timestamp: Option<Time>, exitStatus: Option<int>, source: string, freshness: string)

  datatype Fields = Fields(
    goal: Evidence<string>, completedWork: Evidence<string>, pendingWork: Evidence<string>,
    validation: Evidence<seq<ValidationEvidence>>, risks: Evidence<string>, nextAction: Evidence<string>)

  datatype Project = Project(id: string, alias: string, basename: string)

  datatype Checkpoint = Checkpoint(
    id: string, status: Status, project: Project, repository: RepositoryState, fields: Fields,
    source: Source, retention: string, createdAt: Time, expiresAt: Option<Time>, sizeBytes: nat, revision: string)

  datatype Error =
    | Invalid
    | NotFound
    | Oversize
    | RevisionChanged
    | NotReady
    | StoreFailed

  // ---- Codec --------------------------------------------------------------------------------------

  /** The part of a checkpoint its revision is the digest of. */
  datatype Content = Content(
    project: Project, repository: RepositoryState, fields: Fields,
    source: Source, retention: string, createdAt: Time, expiresAt: Option<Time>)

  function ContentOf(c: Checkpoint): Content {
    Content(c.project, c.repository, c.fields, c.source, c.retention, c.createdAt, c.expiresAt)
  }

  /** All that is kept of an expired checkpoint. */
  datatype ExpiredForm = ExpiredForm(
    id: string, projectId: string, source: Source, retention: string,
    createdAt: Time, expiresAt: Option<Time>, revision: string)

  const NO_TEXT: Evidence<string> := Evidence("", NoProvenance, NoCompleteness)
  const NO_LIST: Evidence<seq<string>> := Evidence([], NoProvenance, NoCompleteness)
  const NO_FIELDS := Fields(NO_TEXT, NO_TEXT, NO_TEXT, Evidence([], NoProvenance, NoCompleteness), NO_TEXT, NO_TEXT)
  const NO_REPOSITORY := RepositoryState(
    NO_TEXT, NO_TEXT, Evidence(None, NoProvenance, NoCompleteness), NO_LIST, NO_LIST, NO_LIST,
    Evidence(DiffStatistics(0, 0, 0, 0), NoProvenance, NoCompleteness), NO_LIST)

  /** The checkpoint an expired form reads back as: every other field is zero. */
  function Blanked(e: ExpiredForm): Checkpoint {
    Checkpoint(e.id, Expired, Project(e.projectId, "", ""), NO_REPOSITORY, NO_FIELDS,
               e.source, e.retention, e.createdAt, e.expiresAt, 0, e.revision)
  }

  function FormOf(c: Checkpoint, projectId: string): ExpiredForm {
    ExpiredForm(c.id, projectId, c.source, c.retention, c.createdAt, c.expiresAt, c.revision)
  }

  function Digits(n: nat): nat {
    if n < 10 then 1 else 1 + Digits(n / 10)
  }

  /** JSON and SHA-256. Encoding fails for times JSON cannot hold. */
  datatype Wire = Wire(
    encode: Checkpoint -> Option<string>,
    encodeExpired: ExpiredForm -> Option<string>,
    encodeContent: Content -> Option<string>,
    encodeValidation: seq<ValidationEvidence> -> string,
    decode: string -> Option<Checkpoint>,
    sha: string -> string)
  {
    ghost predicate Lawful() {
      && LawfulSize()
      && (forall c :: encode(c).Some? ==> decode(encode(c).value) == Some(c))
      && (forall e :: encodeExpired(e).Some? ==> decode(encodeExpired(e).value) == Some(Blanked(e)))
      && (forall s :: sha(s) != "")
      && (forall x, y :: encodeContent(x).Some? && encodeContent(x) == encodeContent(y) ==> x == y)
    }

    /** The size field is written in decimal, so it adds exactly its digits to the length. */
    ghost predicate LawfulSize() {
      forall c: Checkpoint, n: nat ::
        var sized, zero := encode(c.(sizeBytes := n)), encode(c.(sizeBytes := 0));
        && (sized.Some? <==> zero.Some?)
        && (sized.Some? ==> |zero.value| > 0 && |sized.value| == |zero.value| - 1 + Digits(n))
    }

    function Revision(c: Checkpoint): Option<string> {
      match encodeContent(ContentOf(c))
      case Some(content) => Some(sha(content))
      case None => None
    }
  }

  function PowerOfTen(d: nat): nat {
    if d == 0 then 1 else 10 * PowerOfTen(d - 1)
  }

  /** The decimal digits of a number. */
  lemma {:induction false} DigitsExactly(n: nat)
    ensures n == 0 ==> Digits(n) == 1
    ensures n > 0 ==> Digits(n) >= 1 && PowerOfTen(Digits(n) - 1) <= n < PowerOfTen(Digits(n))
  {
    if n >= 10 {
      DigitsExactly(n / 10);
    } else {
      assert PowerOfTen(0) == 1 && PowerOfTen(1) == 10;
    }
  }

  // ---- The self-describing size --------------------------------------------------------------------

  lemma {:induction false} DigitsMonotone(a: nat, b: nat)
    requires a <= b
    ensures Digits(a) <= Digits(b)
  {
    if a >= 10 { DigitsMonotone(a / 10, b / 10); }
  }

  lemma {:induction false} DigitsGrowSlowly(n: nat)
    ensures 1 <= Digits(n) <= n / 2 + 1
  {
    if n >= 10 { DigitsGrowSlowly(n / 10); }
  }

  /** The next size tried after s, when all but the size field takes `rest` bytes. */
  function NextSize(rest: nat, s: nat): nat {
    rest + Digits(s)
  }

  /** The sequence of sizes moves in one direction and stays below a bound. */
  lemma SizesConverge(rest: nat, s: nat, limit: nat)
    requires s <= limit && 2 * rest + 4 <= limit
    ensures NextSize(rest, s) <= limit
    ensures s <= NextSize(rest, s) ==> NextSize(rest, s) <= NextSize(rest, NextSize(rest, s))
    ensures NextSize(rest, s) <= s ==> NextSize(rest, NextSize(rest, s)) <= NextSize(rest, s)
  {
    DigitsGrowSlowly(s);
    if s <= NextSize(rest, s) { DigitsMonotone(s, NextSize(rest, s)); } else { DigitsMonotone(NextSize(rest, s), s); }
  }

  /** Writes the length of the encoding into the encoding. The loop ends from every starting size:
      the sizes it tries only rise, or only fall. */
  method FinalizeCheckpoint(wire: Wire, checkpoint: Checkpoint) returns (r: Option<(Checkpoint, string)>)
    requires wire.LawfulSize()
    ensures r.Some? <==> wire.encode(checkpoint).Some?
    ensures r.Some? ==> r.value.0 == checkpoint.(sizeBytes := |r.value.1|)
    ensures r.Some? ==> wire.encode(r.value.0) == Some(r.value.1)
  {
    var c := checkpoint;
    ghost var zero := wire.encode(checkpoint.(sizeBytes := 0));
    assert checkpoint.(sizeBytes := checkpoint.sizeBytes) == checkpoint;
    ghost var rest: nat := if zero.Some? then |zero.value| - 1 else 0;
    ghost var limit := checkpoint.sizeBytes + 2 * rest + 4;
    ghost var rising := c.sizeBytes <= NextSize(rest, c.sizeBytes);
    while true
      invariant c == checkpoint.(sizeBytes := c.sizeBytes) && c.sizeBytes <= limit
      invariant if rising then c.sizeBytes <= NextSize(rest, c.sizeBytes)
                else NextSize(rest, c.sizeBytes) <= c.sizeBytes
      decreases if rising then limit - c.sizeBytes else c.sizeBytes
    {
      var metadata := wire.encode(c);
      if metadata.None? { return None; }
      if c.sizeBytes == |metadata.value| { return Some((c, metadata.value)); }
      assert |metadata.value| == NextSize(rest, c.sizeBytes);
      SizesConverge(rest, c.sizeBytes, limit);
      c := c.(sizeBytes := |metadata.value|);
    }
  }

  /** The checkpoint can be encoded, and no encoding that states its own size is over the limit. */
  ghost predicate Storable(wire: Wire, c: Checkpoint) {
    && wire.encode(c).Some?
    && forall n: nat :: Measured(wire, c, n) ==> n <= MAX_CHECKPOINT_BYTES
  }

  ghost predicate Measured(wire: Wire, c: Checkpoint, n: nat) {
    var metadata := wire.encode(c.(sizeBytes := n));
    metadata.Some? && |metadata.value| == n
  }

  lemma StorableFits(wire: Wire, c: Checkpoint, d: Checkpoint, metadata: string)
    requires Storable(wire, c) && d == c.(sizeBytes := |metadata|) && wire.encode(d) == Some(metadata)
    ensures |metadata| <= MAX_CHECKPOINT_BYTES
  {
    assert Measured(wire, c, |metadata|);
  }

  /** The size a checkpoint states beforehand does not matter. */
  lemma StorableAnySize(wire: Wire, c: Checkpoint, n: nat)
    requires wire.LawfulSize()
    ensures Storable(wire, c) <==> Storable(wire, c.(sizeBytes := n))
  {
    assert c.(sizeBytes := c.sizeBytes) == c;
    assert c.(sizeBytes := n).(sizeBytes := 0) == c.(sizeBytes := 0);
    forall k: nat ensures Measured(wire, c, k) <==> Measured(wire, c.(sizeBytes := n), k) {
      assert c.(sizeBytes := n).(sizeBytes := k) == c.(sizeBytes := k);
    }
  }

  /** Storable once it is stamped with its revision. */
  ghost predicate Stampable(wire: Wire, c: Checkpoint) {
    wire.Revision(c).Some? && Storable(wire, c.(revision := wire.Revision(c).value))
  }

  lemma StampableFits(wire: Wire, c: Checkpoint, d: Checkpoint, metadata: string)
    requires Stampable(wire, c) && d == c.(revision := wire.Revision(c).value, sizeBytes := |metadata|)
    requires wire.encode(d) == Some(metadata)
    ensures |metadata| <= MAX_CHECKPOINT_BYTES
  {
    StorableFits(wire, c.(revision := wire.Revision(c).value), d, metadata);
  }

  /** Stamps the revision of the content, then the size. */
  method PrepareCheckpoint(wire: Wire, checkpoint: Checkpoint) returns (r: Option<(Checkpoint, string)>)
    requires wire.LawfulSize()
    ensures r.Some? <==> wire.Revision(checkpoint).Some?
                         && wire.encode(checkpoint.(revision := wire.Revision(checkpoint).value)).Some?
    ensures r.Some? ==> r.value.0 == checkpoint.(revision := wire.Revision(checkpoint).value, sizeBytes := |r.value.1|)
    ensures r.Some? ==> wire.encode(r.value.0) == Some(r.value.1)
  {
    var content := wire.encodeContent(ContentOf(checkpoint));
    if content.None? { return None; }
    r := FinalizeCheckpoint(wire, checkpoint.(revision := wire.sha(content.value)));
  }

  /** The contents are encoded to two texts with one SHA-256. */
  ghost predicate ContentsCollide(wire: Wire, a: Checkpoint, b: Checkpoint) {
    var x, y := wire.encodeContent(ContentOf(a)), wire.encodeContent(ContentOf(b));
    x.Some? && y.Some? && x != y && wire.sha(x.value) == wire.sha(y.value)
  }

  /** All that a reviewer of a checkpoint sees of it agrees. */
  ghost predicate SameReviewed(a: Checkpoint, b: Checkpoint) {
    && a.project == b.project && a.repository == b.repository && a.fields == b.fields
    && a.source == b.source && a.retention == b.retention
    && a.createdAt == b.createdAt && a.expiresAt == b.expiresAt
  }

  /** One revision stands for one project, repository, fields, source, retention, creation and
      expiry, unless two encodings collide. */
  lemma RevisionIdentifiesContent(wire: Wire, a: Checkpoint, b: Checkpoint)
    requires wire.Lawful() && wire.Revision(a).Some?
    ensures wire.Revision(a) == wire.Revision(b) <==> SameReviewed(a, b) || ContentsCollide(wire, a, b)
  {
  }

  // ---- Text ---------------------------------------------------------------------------------------

  /** The service's configuration and the string libraries it calls. */
  datatype Tools = Tools(
    home: string, fold: FoldReplace,
    blank: string -> bool, clean: string -> string, absolute: string -> bool, atoi: string -> Option<int>)

  predicate IsControl(c: char) {
    c < ' ' || '\U{7F}' <= c <= '\U{9F}'
  }

  predicate InvalidText(s: string) {
    exists c | c in s :: IsControl(c) && c != '\n' && c != '\t'
  }

  predicate InvalidRelativePath(t: Tools, value: string) {
    || t.absolute(value)
    || t.clean(value) == ".."
    || "../" <= t.clean(value)
    || exists c | c in value :: IsControl(c)
  }

  predicate InvalidRedactions(t: Tools, paths: seq<string>, texts: seq<string>) {
    || (exists p | p in paths :: InvalidRelativePath(t, p))
    || (exists v | v in paths + texts :: v == "" || InvalidText(v))
  }

  predicate InvalidValidation(t: Tools, v: ValidationEvidence) {
    || t.blank(v.command) || InvalidText(v.command) || InvalidText(v.source)
    || v.freshness !in {"", "fresh", "stale", "unknown"}
  }

  function UserField(t: Tools, value: string): Evidence<string> {
    if t.blank(value) then Evidence(value, UnknownProvenance, UnknownCompleteness)
    else Evidence(value, UserConfirmed, Complete)
  }

  function Clean(t: Tools, redactions: seq<string>, text: string): string {
    Sanitized(text, t.home, redactions, t.fold)
  }

  function CleanValidation(t: Tools, redactions: seq<string>, v: ValidationEvidence): ValidationEvidence {
    v.(command := Clean(t, redactions, v.command),
       source := Clean(t, redactions, if v.source == "" then "unknown" else v.source),
       freshness := if v.freshness == "" then "unknown" else v.freshness)
  }

  predicate WholeValidation(v: ValidationEvidence) {
    && v.timestamp.Some? && v.exitStatus.Some?
    && v.source != "" && v.source != "unknown" && v.freshness != "" && v.freshness != "unknown"
  }

  function ValidationCompleteness(values: seq<ValidationEvidence>): Completeness {
    if values == [] then UnknownCompleteness
    else if forall v | v in values :: WholeValidation(v) then Complete
    else Partial
  }

  function ValidationProvenance(values: seq<ValidationEvidence>): Provenance {
    if values == [] then UnknownProvenance else UserConfirmed
  }

  method SanitizeValidations(t: Tools, redactions: seq<string>, values: seq<ValidationEvidence>)
    returns (r: Option<Evidence<seq<ValidationEvidence>>>)
    ensures r.Some? <==> forall v | v in values :: !InvalidValidation(t, v)
    ensures r.Some? ==> |r.value.value| == |values|
    ensures r.Some? ==> forall i | 0 <= i < |values| :: r.value.value[i] == CleanValidation(t, redactions, values[i])
    ensures r.Some? ==> r.value.completeness == ValidationCompleteness(values)
    ensures r.Some? ==> r.value.provenance == ValidationProvenance(values)
  {
    hide InvalidValidation, WholeValidation, CleanValidation;
    var validations: seq<ValidationEvidence> := [];
    var completeness := Complete;
    for i := 0 to |values|
      invariant |validations| == i
      invariant forall j | 0 <= j < i :: validations[j] == CleanValidation(t, redactions, values[j])
      invariant forall j | 0 <= j < i :: !InvalidValidation(t, values[j])
      invariant completeness == if forall j | 0 <= j < i :: WholeValidation(values[j]) then Complete else Partial
    {
      if InvalidValidation(t, values[i]) { return None; }
      validations := validations + [CleanValidation(t, redactions, values[i])];
      if !WholeValidation(values[i]) { completeness := Partial; }
    }
    if |validations| == 0 { return Some(Evidence([], UnknownProvenance, UnknownCompleteness)); }
    return Some(Evidence(validations, UserConfirmed, completeness));
  }

  /** Normalizes paths and replaces the redacted ones; a path that leaves the repository fails. */
  method SanitizePaths(t: Tools, paths: seq<string>, redactions: seq<string>) returns (r: Option<seq<string>>)
    ensures r.Some? <==> forall p | p in paths :: !InvalidRelativePath(t, p)
    ensures r.Some? ==> |r.value| == |paths|
    ensures r.Some? ==> forall i | 0 <= i < |paths| ::
              r.value[i] == if t.clean(paths[i]) in redactions then REDACTED_VALUE else t.clean(paths[i])
  {
    var result: seq<string> := [];
    for i := 0 to |paths|
      invariant |result| == i && forall j | 0 <= j < i :: !InvalidRelativePath(t, paths[j])
      invariant forall j | 0 <= j < i ::
                  result[j] == if t.clean(paths[j]) in redactions then REDACTED_VALUE else t.clean(paths[j])
    {
      if InvalidRelativePath(t, paths[i]) { return None; }
      var normalized := t.clean(paths[i]);
      if normalized in redactions { normalized := REDACTED_VALUE; }
      result := result + [normalized];
    }
    return Some(result);
  }

  function Normalized(t: Tools, paths: seq<string>): seq<string> {
    seq(|paths|, i requires 0 <= i < |paths| => t.clean(paths[i]))
  }

  method CleanAll(t: Tools, redactions: seq<string>, texts: seq<string>) returns (r: seq<string>)
    ensures |r| == |texts| && forall i | 0 <= i < |texts| :: r[i] == Clean(t, redactions, texts[i])
  {
    r := [];
    for i := 0 to |texts|
      invariant |r| == i && forall j | 0 <= j < i :: r[j] == Clean(t, redactions, texts[j])
    {
      var text := SanitizeText(texts[i], t.home, redactions, t.fold);
      r := r + [text];
    }
  }

  datatype EditRequest = EditRequest(fields: Fields, redactPaths: seq<string>, redactText: seq<string>)

  /** x occurs in no sanitized text of the checkpoint. */
  ghost predicate TextsLack(c: Checkpoint, x: string) {
    && !Contains(c.project.alias, x) && !Contains(c.project.basename, x)
    && !Contains(c.repository.branch.value, x)
    && (forall s | s in c.repository.configuredCommands.value :: !Contains(s, x))
    && FieldsLack(c.fields, x)
  }

  ghost predicate FieldsLack(f: Fields, x: string) {
    && !Contains(f.goal.value, x) && !Contains(f.completedWork.value, x) && !Contains(f.pendingWork.value, x)
    && !Contains(f.risks.value, x) && !Contains(f.nextAction.value, x)
    && (forall v | v in f.validation.value :: !Contains(v.command, x) && !Contains(v.source, x))
  }

  /** x is a redaction that resists its marker, or a spelling of a slash-holding, bracket-free home. */
  ghost predicate MustVanish(t: Tools, redactions: seq<string>, x: string) {
    || (x in redactions && Resists(x, REDACTED_VALUE))
    || ('/' in t.home && '[' !in t.home && ']' !in t.home && !IsWindowsPath(t.home) && x in Candidates(t.home))
  }

  lemma CleanLacks(t: Tools, redactions: seq<string>, text: string, x: string)
    requires MustVanish(t, redactions, x)
    ensures !Contains(Clean(t, redactions, text), x)
  {
    hide Contains, Resists, Sanitized, Candidates;
    if x in redactions && Resists(x, REDACTED_VALUE) {
      RedactionComplete(text, t.home, redactions, t.fold, x);
    } else {
      HomeNeverLeaks(text, t.home, redactions, t.fold, x);
    }
  }

  predicate InvalidFields(t: Tools, f: Fields) {
    || InvalidText(f.goal.value) || InvalidText(f.completedWork.value) || InvalidText(f.pendingWork.value)
    || InvalidText(f.risks.value) || InvalidText(f.nextAction.value)
    || exists v | v in f.validation.value :: InvalidValidation(t, v)
  }

  /** g is f with every text sanitized and its provenance set anew. */
  ghost predicate FieldsCleaned(t: Tools, redactions: seq<string>, f: Fields, g: Fields) {
    && g.goal == UserField(t, Clean(t, redactions, f.goal.value))
    && g.completedWork == UserField(t, Clean(t, redactions, f.completedWork.value))
    && g.pendingWork == UserField(t, Clean(t, redactions, f.pendingWork.value))
    && g.risks == UserField(t, Clean(t, redactions, f.risks.value))
    && g.nextAction == UserField(t, Clean(t, redactions, f.nextAction.value))
    && |g.validation.value| == |f.validation.value|
    && (forall i | 0 <= i < |f.validation.value| ::
          g.validation.value[i] == CleanValidation(t, redactions, f.validation.value[i]))
    && g.validation.completeness == ValidationCompleteness(f.validation.value)
    && g.validation.provenance == ValidationProvenance(f.validation.value)
  }

  method SanitizeFields(t: Tools, redactions: seq<string>, f: Fields) returns (r: Option<Fields>)
    ensures r.Some? <==> !InvalidFields(t, f)
    ensures r.Some? ==> FieldsCleaned(t, redactions, f, r.value)
  {
    hide Clean, InvalidText, InvalidValidation;
    if InvalidText(f.goal.value) || InvalidText(f.completedWork.value) || InvalidText(f.pendingWork.value)
       || InvalidText(f.risks.value) || InvalidText(f.nextAction.value) {
      return None;
    }
    var texts := CleanAll(t, redactions,
      [f.goal.value, f.completedWork.value, f.pendingWork.value, f.risks.value, f.nextAction.value]);
    var validation := SanitizeValidations(t, redactions, f.validation.value);
    if validation.None? { return None; }
    return Some(Fields(UserField(t, texts[0]), UserField(t, texts[1]), UserField(t, texts[2]), validation.value,
                       UserField(t, texts[3]), UserField(t, texts[4])));
  }

  lemma FieldsVanish(t: Tools, redactions: seq<string>, f: Fields, g: Fields, x: string)
    requires MustVanish(t, redactions, x) && FieldsCleaned(t, redactions, f, g)
    ensures FieldsLack(g, x)
  {
    hide Contains, Clean, MustVanish;
    CleanLacks(t, redactions, f.goal.value, x);
    CleanLacks(t, redactions, f.completedWork.value, x);
    CleanLacks(t, redactions, f.pendingWork.value, x);
    CleanLacks(t, redactions, f.risks.value, x);
    CleanLacks(t, redactions, f.nextAction.value, x);
    forall v | v in g.validation.value ensures !Contains(v.command, x) && !Contains(v.source, x) {
      var i :| 0 <= i < |g.validation.value| && g.validation.value[i] == v;
      var w := f.validation.value[i];
      CleanLacks(t, redactions, w.command, x);
      CleanLacks(t, redactions, if w.source == "" then "unknown" else w.source, x);
    }
  }

  /** d is c with the request's fields sanitized in, every other text sanitized again and the
      redacted paths replaced; identity, origin, times and observed facts are untouched. */
  ghost predicate EditedTo(t: Tools, c: Checkpoint, request: EditRequest, d: Checkpoint) {
    && EditKeeps(c, d)
    && FieldsCleaned(t, request.redactText, request.fields, d.fields)
    && d.project.alias == Clean(t, request.redactText, c.project.alias)
    && d.project.basename == Clean(t, request.redactText, c.project.basename)
    && d.repository.branch.value == Clean(t, request.redactText, c.repository.branch.value)
    && |d.repository.configuredCommands.value| == |c.repository.configuredCommands.value|
    && (forall i | 0 <= i < |c.repository.configuredCommands.value| ::
          d.repository.configuredCommands.value[i]
              == Clean(t, request.redactText, c.repository.configuredCommands.value[i]))
    && PathsRedacted(t, c.repository, d.repository, Normalized(t, request.redactPaths))
  }

  /** After an edit, every redaction that resists its marker, and the home, is gone from every text. */
  lemma EditRedacts(t: Tools, c: Checkpoint, request: EditRequest, d: Checkpoint, x: string)
    requires EditedTo(t, c, request, d) && MustVanish(t, request.redactText, x)
    ensures TextsLack(d, x)
  {
    hide Contains, Clean, MustVanish, FieldsCleaned, FieldsLack;
    FieldsVanish(t, request.redactText, request.fields, d.fields, x);
    CleanLacks(t, request.redactText, c.project.alias, x);
    CleanLacks(t, request.redactText, c.project.basename, x);
    CleanLacks(t, request.redactText, c.repository.branch.value, x);
    CommandsVanish(t, request.redactText, c.repository.configuredCommands.value,
                   d.repository.configuredCommands.value, x);
  }

  method ApplyEdit(t: Tools, c: Checkpoint, request: EditRequest) returns (r: Result<Checkpoint, Error>)
    ensures r.Ok? <==> !InvalidFields(t, request.fields) && PathsInside(t, c.repository)
    ensures r.Ok? ==> EditedTo(t, c, request, r.value)
    ensures r.Err? ==> r.error == Invalid
  {
    hide Clean, InvalidRelativePath, InvalidFields, FieldsCleaned;
    var fields := SanitizeFields(t, request.redactText, request.fields);
    if fields.None? { return Err(Invalid); }
    var texts := CleanAll(t, request.redactText, [c.project.alias, c.project.basename, c.repository.branch.value]);
    var redacted := Normalized(t, request.redactPaths);
    var staged := SanitizePaths(t, c.repository.staged.value, redacted);
    if staged.None? { return Err(Invalid); }
    var modified := SanitizePaths(t, c.repository.modified.value, redacted);
    if modified.None? { return Err(Invalid); }
    var untracked := SanitizePaths(t, c.repository.untracked.value, redacted);
    if untracked.None? { return Err(Invalid); }
    var commands := CleanAll(t, request.redactText, c.repository.configuredCommands.value);
    var repository := c.repository.(
      branch := c.repository.branch.(value := texts[2]),
      staged := c.repository.staged.(value := staged.value),
      modified := c.repository.modified.(value := modified.value),
      untracked := c.repository.untracked.(value := untracked.value),
      configuredCommands := c.repository.configuredCommands.(value := commands));
    var project := c.project.(alias := texts[0], basename := texts[1]);
    return Ok(c.(fields := fields.value, project := project, repository := repository));
  }

  lemma CommandsVanish(t: Tools, redactions: seq<string>, before: seq<string>, after: seq<string>, x: string)
    requires MustVanish(t, redactions, x)
    requires |after| == |before| && forall i | 0 <= i < |before| :: after[i] == Clean(t, redactions, before[i])
    ensures forall s | s in after :: !Contains(s, x)
  {
    hide Contains, Clean, MustVanish;
    forall s | s in after ensures !Contains(s, x) {
      var i :| 0 <= i < |after| && after[i] == s;
      CleanLacks(t, redactions, before[i], x);
    }
  }

  /** What an edit leaves alone. */
  ghost predicate EditKeeps(c: Checkpoint, d: Checkpoint) {
    && d.id == c.id && d.status == c.status && d.source == c.source && d.retention == c.retention
    && d.createdAt == c.createdAt && d.expiresAt == c.expiresAt && d.project.id == c.project.id
    && d.repository == c.repository.(
         branch := c.repository.branch.(value := d.repository.branch.value),
         staged := c.repository.staged.(value := d.repository.staged.value),
         modified := c.repository.modified.(value := d.repository.modified.value),
         untracked := c.repository.untracked.(value := d.repository.untracked.value),
         configuredCommands := c.repository.configuredCommands.(value := d.repository.configuredCommands.value))
  }

  /** The inventories with their paths normalized and the redacted ones replaced. */
  ghost predicate PathsRedacted(t: Tools, before: RepositoryState, after: RepositoryState, redacted: seq<string>) {
    && ListRedacted(t, before.staged.value, after.staged.value, redacted)
    && ListRedacted(t, before.modified.value, after.modified.value, redacted)
    && ListRedacted(t, before.untracked.value, after.untracked.value, redacted)
  }

  ghost predicate ListRedacted(t: Tools, before: seq<string>, after: seq<string>, redacted: seq<string>) {
    && |after| == |before|
    && forall i | 0 <= i < |after| ::
         after[i] == if t.clean(before[i]) in redacted then REDACTED_VALUE else t.clean(before[i])
  }

  /** No redacted path is left in an inventory, unless it is spelled like the marker. */
  lemma RedactedPathsVanish(t: Tools, before: seq<string>, after: seq<string>, redacted: seq<string>, p: string)
    requires ListRedacted(t, before, after, redacted) && p in redacted && p != REDACTED_VALUE
    ensures p !in after
  {
  }

  /** Every path of the inventories stays inside the repository. */
  predicate PathsInside(t: Tools, r: RepositoryState) {
    forall p | p in r.staged.value + r.modified.value + r.untracked.value :: !InvalidRelativePath(t, p)
  }

  lemma SameRedaction(t: Tools, before: seq<string>, a: seq<string>, b: seq<string>, redacted: seq<string>)
    requires ListRedacted(t, before, a, redacted) && ListRedacted(t, before, b, redacted)
    ensures a == b
  {
  }

  lemma SameFields(t: Tools, redactions: seq<string>, f: Fields, a: Fields, b: Fields)
    requires FieldsCleaned(t, redactions, f, a) && FieldsCleaned(t, redactions, f, b)
    ensures a == b
  {
    hide Clean, CleanValidation, ValidationCompleteness;
    assert a.validation.value == b.validation.value;
  }

  /** An edit has one outcome. */
  lemma EditUnique(t: Tools, c: Checkpoint, request: EditRequest, a: Checkpoint, b: Checkpoint)
    requires EditedTo(t, c, request, a) && EditedTo(t, c, request, b)
    ensures a == b.(revision := a.revision, sizeBytes := a.sizeBytes)
  {
    hide Clean, FieldsCleaned, ListRedacted;
    SameFields(t, request.redactText, request.fields, a.fields, b.fields);
    var redacted := Normalized(t, request.redactPaths);
    SameRedaction(t, c.repository.staged.value, a.repository.staged.value, b.repository.staged.value, redacted);
    SameRedaction(t, c.repository.modified.value, a.repository.modified.value, b.repository.modified.value, redacted);
    SameRedaction(t, c.repository.untracked.value, a.repository.untracked.value, b.repository.untracked.value,
        redacted);
    assert a.repository.configuredCommands.value == b.repository.configuredCommands.value;
  }

  // ---- Retention ----------------------------------------------------------------------------------

  datatype Policy = Policy(repositoryFirst: string, transcriptAssisted: string)

  /** Days, or no limit (None) for "unlimited". */
  function ParseRetention(t: Tools, setting: string): Result<Option<nat>, Error> {
    if setting == "unlimited" then Ok(None)
    else
      match t.atoi(setting)
      case Some(days) => if 1 <= days <= MAX_RETENTION_DAYS then Ok(Some(days)) else Err(Invalid)
      case None => Err(Invalid)
  }

  function Setting(t: Tools, policy: Policy, source: Source): Result<string, Error> {
    var chosen := if source.TranscriptAssisted? then policy.transcriptAssisted else policy.repositoryFirst;
    var setting := if chosen != "" then chosen
                   else if source.TranscriptAssisted? then DEFAULT_TRANSCRIPT_RETENTION
                   else DEFAULT_REPOSITORY_RETENTION;
    if ParseRetention(t, setting).Ok? then Ok(setting) else Err(Invalid)
  }

  function Expiry(t: Tools, createdAt: Time, setting: string): Result<Option<Time>, Error> {
    match ParseRetention(t, setting)
    case Err(e) => Err(e)
    case Ok(None) => Ok(None)
    case Ok(Some(days)) =>
      if createdAt + days * DAY >= END_OF_TIME then Err(Invalid) else Ok(Some(createdAt + days * DAY))
  }

  /** The setting in force: the configured one or the default of its kind, if it can be parsed. */
  lemma SettingExactly(t: Tools, policy: Policy, source: Source)
    ensures var chosen := if source == RepositoryFirst then policy.repositoryFirst else policy.transcriptAssisted;
            var expected := if chosen != "" then chosen else if source == RepositoryFirst then "30" else "7";
            Setting(t, policy, source)
            == if ParseRetention(t, expected).Ok? then Ok(expected) else Err(Invalid)
  {
  }

  /** "unlimited" never expires; a number of days from 1 to 3652059 expires that many days after
      creation, if that is before the year 10000; nothing else is a retention. */
  lemma ExpiryExactly(t: Tools, createdAt: Time, setting: string)
    ensures setting == "unlimited" ==> Expiry(t, createdAt, setting) == Ok(None)
    ensures setting != "unlimited" && t.atoi(setting).Some? && 1 <= t.atoi(setting).value <= 3652059 ==>
              var at := createdAt + t.atoi(setting).value * 86_400_000_000_000;
              Expiry(t, createdAt, setting) == if at < 253_402_300_800_000_000_000 then Ok(Some(at)) else Err(Invalid)
    ensures setting != "unlimited" && (t.atoi(setting).None? || !(1 <= t.atoi(setting).value <= 3652059))
            ==> Expiry(t, createdAt, setting).Err? && ParseRetention(t, setting).Err?
    ensures ParseRetention(t, setting).Err? ==> Expiry(t, createdAt, setting).Err?
  {
  }

  // ---- What sanitizing means, field by field ------------------------------------------------------

  /** The text as sanitized; confirmed by the user unless it is blank. */
  ghost predicate ConfirmedText(t: Tools, redactions: seq<string>, text: string, e: Evidence<string>) {
    && e.value == Sanitized(text, t.home, redactions, t.fold)
    && (t.blank(e.value) ==> e.provenance == UnknownProvenance && e.completeness == UnknownCompleteness)
    && (!t.blank(e.value) ==> e.provenance == UserConfirmed && e.completeness == Complete)
  }

  /** Command and source sanitized, "unknown" where source or freshness was not given, the rest kept. */
  ghost predicate ConfirmedValidation(t: Tools, redactions: seq<string>, v: ValidationEvidence, w: ValidationEvidence) {
    && w.command == Sanitized(v.command, t.home, redactions, t.fold)
    && w.source == Sanitized(if v.source == "" then "unknown" else v.source, t.home, redactions, t.fold)
    && w.freshness == (if v.freshness == "" then "unknown" else v.freshness)
    && w.timestamp == v.timestamp && w.exitStatus == v.exitStatus
  }

  lemma FieldsExactly(t: Tools, redactions: seq<string>, f: Fields, g: Fields)
    requires FieldsCleaned(t, redactions, f, g)
    ensures ConfirmedText(t, redactions, f.goal.value, g.goal)
    ensures ConfirmedText(t, redactions, f.completedWork.value, g.completedWork)
    ensures ConfirmedText(t, redactions, f.pendingWork.value, g.pendingWork)
    ensures ConfirmedText(t, redactions, f.risks.value, g.risks)
    ensures ConfirmedText(t, redactions, f.nextAction.value, g.nextAction)
    ensures |g.validation.value| == |f.validation.value|
    ensures forall i | 0 <= i < |f.validation.value| ::
              ConfirmedValidation(t, redactions, f.validation.value[i], g.validation.value[i])
    ensures g.validation.completeness == Complete <==>
              && f.validation.value != []
              && forall v | v in f.validation.value ::
                   && v.timestamp.Some? && v.exitStatus.Some?
                   && v.source !in {"", "unknown"} && v.freshness !in {"", "unknown"}
    ensures f.validation.value == []
            ==> g.validation.provenance == UnknownProvenance && g.validation.completeness == UnknownCompleteness
    ensures f.validation.value != []
            ==> g.validation.provenance == UserConfirmed && g.validation.completeness != UnknownCompleteness
  {
    hide Sanitized;
  }

  /** An edit, part by part: each text sanitized in its own place, each inventory redacted, each field
      the requested one, and everything else as it was. */
  lemma EditedExactly(t: Tools, c: Checkpoint, request: EditRequest, d: Checkpoint)
    requires EditedTo(t, c, request, d)
    ensures d.id == c.id && d.status == c.status && d.source == c.source && d.retention == c.retention
            && d.createdAt == c.createdAt && d.expiresAt == c.expiresAt && d.project.id == c.project.id
    ensures d.project.alias == Sanitized(c.project.alias, t.home, request.redactText, t.fold)
            && d.project.basename == Sanitized(c.project.basename, t.home, request.redactText, t.fold)
            && d.repository.branch.value
               == Sanitized(c.repository.branch.value, t.home, request.redactText, t.fold)
    ensures |d.repository.configuredCommands.value| == |c.repository.configuredCommands.value|
    ensures forall i | 0 <= i < |c.repository.configuredCommands.value| ::
              d.repository.configuredCommands.value[i]
              == Sanitized(c.repository.configuredCommands.value[i], t.home, request.redactText, t.fold)
    ensures var redacted := Normalized(t, request.redactPaths);
            && ListRedacted(t, c.repository.staged.value, d.repository.staged.value, redacted)
            && ListRedacted(t, c.repository.modified.value, d.repository.modified.value, redacted)
            && ListRedacted(t, c.repository.untracked.value, d.repository.untracked.value, redacted)
    ensures d.repository.head == c.repository.head && d.repository.upstream == c.repository.upstream
            && d.repository.diff == c.repository.diff
    ensures ConfirmedText(t, request.redactText, request.fields.goal.value, d.fields.goal)
    ensures ConfirmedText(t, request.redactText, request.fields.completedWork.value, d.fields.completedWork)
    ensures ConfirmedText(t, request.redactText, request.fields.pendingWork.value, d.fields.pendingWork)
    ensures ConfirmedText(t, request.redactText, request.fields.risks.value, d.fields.risks)
    ensures ConfirmedText(t, request.redactText, request.fields.nextAction.value, d.fields.nextAction)
  {
    hide Sanitized, FieldsCleaned, ListRedacted, ConfirmedText, ConfirmedValidation;
    FieldsExactly(t, request.redactText, request.fields, d.fields);
  }

  lemma ValidFieldsExactly(t: Tools, f: Fields)
    ensures !InvalidFields(t, f) <==>
              && !InvalidText(f.goal.value) && !InvalidText(f.completedWork.value) && !InvalidText(f.pendingWork.value)
              && !InvalidText(f.risks.value) && !InvalidText(f.nextAction.value)
              && forall v | v in f.validation.value ::
                   && !t.blank(v.command) && !InvalidText(v.command) && !InvalidText(v.source)
                   && v.freshness in {"", "fresh", "stale", "unknown"}
  {
    hide InvalidText;
  }

  /** An inventory after redaction: each path cleaned, and replaced if it cleans to what one of the
      redacted paths cleans to. */
  lemma RedactedListExactly(t: Tools, before: seq<string>, after: seq<string>, redactPaths: seq<string>)
    requires ListRedacted(t, before, after, Normalized(t, redactPaths))
    ensures |after| == |before|
    ensures forall i | 0 <= i < |before| ::
              if exists q | q in redactPaths :: t.clean(q) == t.clean(before[i]) then after[i] == "[REDACTED]"
              else after[i] == t.clean(before[i])
  {
    var redacted := Normalized(t, redactPaths);
    forall i | 0 <= i < |before|
      ensures t.clean(before[i]) in redacted <==> exists q | q in redactPaths :: t.clean(q) == t.clean(before[i])
    {
      if t.clean(before[i]) in redacted {
        var j :| 0 <= j < |redacted| && redacted[j] == t.clean(before[i]);
        assert redactPaths[j] in redactPaths;
      }
      if q :| q in redactPaths && t.clean(q) == t.clean(before[i]) {
        var j :| 0 <= j < |redactPaths| && redactPaths[j] == q;
        assert redacted[j] == t.clean(before[i]);
      }
    }
  }

  /** Control characters but newline and tab are refused. */
  lemma InvalidTextExactly(s: string)
    ensures InvalidText(s) <==>
              exists i | 0 <= i < |s| ::
                (s[i] as int < 32 || 127 <= s[i] as int <= 159) && s[i] as int != 10 && s[i] as int != 9
  {
    if InvalidText(s) {
      var c :| c in s && IsControl(c) && c != '\n' && c != '\t';
      var i :| 0 <= i < |s| && s[i] == c;
    } else {
      assert forall i | 0 <= i < |s| :: s[i] in s;
    }
  }

  /** A path stays inside when it is relative, does not climb out once cleaned and holds no control
      character. */
  lemma InsideExactly(t: Tools, p: string)
    ensures !InvalidRelativePath(t, p) <==>
              && !t.absolute(p)
              && !(|t.clean(p)| >= 2 && t.clean(p)[0] == '.' && t.clean(p)[1] == '.'
                   && (|t.clean(p)| == 2 || t.clean(p)[2] == '/'))
              && forall i | 0 <= i < |p| :: 32 <= p[i] as int && !(127 <= p[i] as int <= 159)
  {
    var c := t.clean(p);
    assert c == ".." <==> |c| == 2 && c[0] == '.' && c[1] == '.';
    assert "../" <= c <==> |c| >= 3 && c[0] == '.' && c[1] == '.' && c[2] == '/';
    if !InvalidRelativePath(t, p) {
      forall i | 0 <= i < |p| ensures 32 <= p[i] as int && !(127 <= p[i] as int <= 159) { assert p[i] in p; }
    }
  }

  /** Redactions are not empty and hold no control characters; redacted paths stay inside. */
  lemma ValidRedactionsExactly(t: Tools, paths: seq<string>, texts: seq<string>)
    ensures !InvalidRedactions(t, paths, texts) <==>
              && (forall p | p in paths :: p != "" && !InvalidText(p) && !InvalidRelativePath(t, p))
              && (forall v | v in texts :: v != "" && !InvalidText(v))
  {
    hide InvalidText, InvalidRelativePath;
    assert forall v :: v in paths + texts <==> v in paths || v in texts;
  }
}
