/** The checkpoint service: capture, show with expiry, edit, approve, assisted approval, purge and
    handoff over a store the launch side also changes. Each call takes its clock reading. */
module CheckpointServices {
  import opened Wrappers
  import opened Redaction
  import opened Checkpoints
  import opened CheckpointStores

  datatype CaptureRequest = CaptureRequest(
    path: string, alias: string, goal: string, completedWork: string, pendingWork: string, risks: string,
    nextAction: string, validation: Option<ValidationEvidence>,
    configuredCommands: seq<string>, redactPaths: seq<string>, redactText: seq<string>)

  /** What inspecting a repository found. */
  datatype Inventory = Inventory(
    branch: string, head: string, upstream: Option<Divergence>,
    staged: seq<string>, modified: seq<string>, untracked: seq<string>, diff: DiffStatistics,
    configuredCommands: seq<string>)

  datatype SourceState = Exited | Running | Uncertain
  datatype SourceLaunch = SourceLaunch(profileId: string, state: SourceState)

  datatype Handoff = Handoff(checkpointId: string, revision: string, projectId: string, sourceProfileId: string,
                             workingDirectory: string, context: string)

  predicate Past(expiresAt: Option<Time>, now: Time) {
    expiresAt.Some? && expiresAt.value <= now
  }

  predicate Due(c: Checkpoint, now: Time) {
    Past(c.expiresAt, now) && c.status != Launching
  }

  function Pointer(value: string): Option<string> {
    if value == "" then None else Some(value)
  }

  function RecordOf(wire: Wire, c: Checkpoint, metadata: string): Record {
    Record(c.id, c.project.id, c.status, metadata,
           Pointer(c.fields.goal.value), Pointer(c.fields.completedWork.value), Pointer(c.fields.pendingWork.value),
           Pointer(wire.encodeValidation(c.fields.validation.value)), Pointer(c.fields.risks.value),
           Pointer(c.fields.nextAction.value), c.createdAt, c.expiresAt)
  }

  function ExpiredRecord(e: ExpiredForm, metadata: string): Record {
    Record(e.id, e.projectId, Expired, metadata, None, None, None, None, None, None, e.createdAt, e.expiresAt)
  }

  /** Only the launch side moved rows, but for the one given, which is now scrubbed. */
  ghost predicate OnlyScrubs(wire: Wire, s: Records, t: Records, id: string, now: Time) {
    && s.Keys == t.Keys
    && forall k | k in s :: LaunchMoved(s[k], t[k]) || (k == id && NowScrubbed(wire, s[k], t[k], now))
  }

  /** The row was past its expiry but not expired, and is scrubbed now, under the revision it had. */
  ghost predicate NowScrubbed(wire: Wire, a: Record, b: Record, now: Time) {
    && a.status != Expired && Past(a.expiresAt, now) && Scrubbed(wire, b)
    && wire.decode(a.metadata).Some? && wire.decode(b.metadata).Some?
    && var was, scrubbed := Stored(wire, a), Stored(wire, b);
       && scrubbed.id == was.id && scrubbed.project.id == a.projectId && scrubbed.source == was.source
       && scrubbed.createdAt == was.createdAt && scrubbed.expiresAt == was.expiresAt
       && scrubbed.revision == was.revision
       && (was.retention != "" ==> scrubbed.retention == was.retention)
  }

  /** No text, path, command or observation is left in the checkpoint. */
  ghost predicate HoldsNothing(c: Checkpoint) {
    && c.project.alias == "" && c.project.basename == ""
    && c.fields.goal.value == "" && c.fields.completedWork.value == "" && c.fields.pendingWork.value == ""
    && c.fields.risks.value == "" && c.fields.nextAction.value == "" && c.fields.validation.value == []
    && c.repository.branch.value == "" && c.repository.head.value == "" && c.repository.upstream.value.None?
    && c.repository.staged.value == [] && c.repository.modified.value == [] && c.repository.untracked.value == []
    && c.repository.configuredCommands.value == [] && c.repository.diff.value == DiffStatistics(0, 0, 0, 0)
  }

  /** The encoded checkpoint of a row, which the launch side never changes. */
  ghost function Stored(wire: Wire, r: Record): Checkpoint
    requires wire.decode(r.metadata).Some?
  {
    wire.decode(r.metadata).value
  }

  /** A row loaded in one of these states is not written: the rows are as they were, or as the
      launch side had left them when they were loaded. */
  ghost predicate Spared(s: Records, loaded: Records, t: Records, id: string, states: set<Status>) {
    id in loaded && loaded[id].status in states ==> t == s || t == loaded
  }

  /** The row was a draft or approved when it was loaded. */
  ghost predicate LoadedOpen(loaded: Records, id: string) {
    id in loaded && loaded[id].status in {Draft, Approved}
  }

  // ---- Facts about rows -----------------------------------------------------------------------------

  lemma LaunchedIsScrubless(wire: Wire, s: Records, t: Records, id: string, now: Time)
    requires Launched(s, t)
    ensures OnlyScrubs(wire, s, t, id, now)
  {
  }

  /** A freshly encoded checkpoint makes an authentic row. */
  lemma EncodedIsAuthentic(wire: Wire, c: Checkpoint, metadata: string)
    requires wire.Lawful() && wire.encode(c) == Some(metadata)
    requires c.sizeBytes == |metadata| <= MAX_CHECKPOINT_BYTES && wire.Revision(c) == Some(c.revision)
            && c.retention != ""
    ensures Authentic(wire, RecordOf(wire, c, metadata)) && Current(wire, RecordOf(wire, c, metadata)) == Some(c)
  {
  }

  /** The columns of a saved row: what the checkpoint says, and nothing where a text is empty. */
  lemma ColumnsExactly(wire: Wire, c: Checkpoint, metadata: string)
    ensures var r := RecordOf(wire, c, metadata);
            && r.id == c.id && r.projectId == c.project.id && r.status == c.status && r.metadata == metadata
            && r.createdAt == c.createdAt && r.expiresAt == c.expiresAt
            && Column(r.goal, c.fields.goal.value) && Column(r.completedWork, c.fields.completedWork.value)
            && Column(r.pendingWork, c.fields.pendingWork.value) && Column(r.risks, c.fields.risks.value)
            && Column(r.nextAction, c.fields.nextAction.value)
            && Column(r.validation, wire.encodeValidation(c.fields.validation.value))
  {
  }

  ghost predicate Column(column: Option<string>, text: string) {
    (text == "" ==> column.None?) && (text != "" ==> column == Some(text))
  }

  lemma ScrubbedForm(wire: Wire, c: Checkpoint, projectId: string, metadata: string)
    requires wire.Lawful() && wire.encodeExpired(FormOf(c, projectId)) == Some(metadata) && c.retention != ""
    ensures Scrubbed(wire, ExpiredRecord(FormOf(c, projectId), metadata))
    ensures Stored(wire, ExpiredRecord(FormOf(c, projectId), metadata)) == Blanked(FormOf(c, projectId))
  {
  }

  class Service {
    const store: Store
    const wire: Wire
    const t: Tools

    ghost predicate Valid()
      reads store
    {
      store.Valid() && store.wire == wire && wire.Lawful()
    }

    constructor (store: Store, t: Tools)
      requires store.Valid() && store.wire.Lawful()
      ensures Valid() && this.store == store && this.t == t
    {
      this.store, this.wire, this.t := store, store.wire, t;
    }

    // ---- Show ---------------------------------------------------------------------------------------

    /** A row that show has no reason of its own to refuse. */
    ghost predicate Showable(s: Records, id: string) {
      && !t.blank(id) && !InvalidText(id) && id in s
      && !ScrubFails(wire, s[id])
    }

    /** The expired form of the row cannot be encoded. */
    static ghost predicate ScrubFails(wire: Wire, r: Record) {
      wire.decode(r.metadata).Some? && wire.encodeExpired(FormOf(Stored(wire, r), r.projectId)).None?
    }

    /** The checkpoint as stored, scrubbed first when it is past its expiry and not launching.
        Showing an expired checkpoint makes no second call: it writes nothing. */
    method Show(id: string, now: Time) returns (r: Result<Checkpoint, Error>)
      requires Valid()
      modifies store
      ensures Valid() && old(store.history) <= store.history
      ensures OnlyScrubs(wire, old(store.records), store.records, id, now)
      ensures r != Err(RevisionChanged)
      ensures r.Ok? ==> id in store.records && Sound(wire, store.records[id]) && store.records[id].id == id
      ensures r.Ok? ==> Current(wire, store.records[id]) == Some(r.value)
      ensures r.Ok? ==> r.value.id == id && r.value.status == store.records[id].status
      ensures r.Ok? && r.value.expiresAt.Some? && r.value.expiresAt.value <= now
              ==> r.value.status == Launching || r.value.status == Expired
      ensures id in old(store.Reached()) ==>
                var loaded := old(store.Reached())[id];
                loaded.expiresAt.None? || now < loaded.expiresAt.value
                ==> (store.records == old(store.records) || store.records == old(store.Reached()))
                    && (r.Ok? ==> r.value.status == loaded.status && store.records == old(store.Reached()))
      ensures r.Ok? && r.value.status == Expired
              ==> var row := store.records[id];
                  && HoldsNothing(r.value)
                  && row.goal.None? && row.completedWork.None? && row.pendingWork.None?
                  && row.validation.None? && row.risks.None? && row.nextAction.None?
      ensures r.Ok? && r.value.status != Expired
              ==> store.records == old(store.Reached()) && store.calls == old(store.calls) + 1
      ensures Spared(old(store.records), old(store.Reached()), store.records, id, {Launching, Expired})
      ensures r.Ok? && id in old(store.Reached()) && old(store.Reached())[id].status == Launching
              ==> r.value.status == Launching
      ensures store.calls >= old(store.calls)
      ensures r.Err? ==> !Showable(old(store.records), id) || !store.Quiet(id, old(store.calls), store.calls)
      ensures id in old(store.records) && old(store.records)[id].status == Expired
              ==> store.calls <= old(store.calls) + 1 && store.records[id] == old(store.records)[id]
    {
      hide Authentic, Scrubbed, Run, InvalidText, Launched, OnlyScrubs, ScrubFails, AllSound;
      ghost var s := store.records;
      LaunchedTrivially(s);
      LaunchedIsScrubless(wire, s, s, id, now);
      if t.blank(id) || InvalidText(id) { return Err(Invalid); }
      ReachedIsLaunched(store, s);
      LaunchedIsScrubless(wire, s, store.Reached(), id, now);
      ghost var reached := store.Reached();
      var record := store.LoadCheckpoint(id);
      SameScrub(wire, s, reached, id);
      if record.Err? { return Err(record.error); }
      r := ShowLoaded(id, record.value, now, s);
      if r.Ok? { RowIsCheckpoint(wire, store.records[id], r.value); }
      if r.Ok? && r.value.status == Expired { ExpiredHoldsNothing(wire, store.records[id], r.value); }
    }

    static lemma RowIsCheckpoint(wire: Wire, record: Record, c: Checkpoint)
      requires Sound(wire, record) && Current(wire, record) == Some(c)
      ensures c.id == record.id && c.status == record.status
    {
    }

    /** Nothing sensitive is left of an expired row, in its columns or in its encoded checkpoint. */
    static lemma ExpiredHoldsNothing(wire: Wire, record: Record, c: Checkpoint)
      requires Sound(wire, record) && Current(wire, record) == Some(c) && c.status == Expired
      ensures HoldsNothing(c)
      ensures record.goal.None? && record.completedWork.None? && record.pendingWork.None?
              && record.validation.None? && record.risks.None? && record.nextAction.None?
    {
    }

    static lemma ReachedIsLaunched(store: Store, s: Records)
      requires store.Valid() && s == store.records
      ensures Launched(s, store.Reached())
    {
    }

    /** The rest of show, once the row is loaded. */
    method ShowLoaded(id: string, record: Record, now: Time, ghost s: Records) returns (r: Result<Checkpoint, Error>)
      requires Valid()
      requires Launched(s, store.records) && AllSound(wire, store.records)
      requires id in store.records && store.records[id] == record
      modifies store
      ensures Valid() && old(store.history) <= store.history
      ensures OnlyScrubs(wire, s, store.records, id, now)
      ensures r != Err(RevisionChanged)
      ensures r.Ok? ==> id in store.records && Sound(wire, store.records[id]) && store.records[id].id == id
      ensures r.Ok? ==> Current(wire, store.records[id]) == Some(r.value)
      ensures r.Ok? ==> !Past(r.value.expiresAt, now) || r.value.status == Launching || r.value.status == Expired
      ensures record.expiresAt.None? || now < record.expiresAt.value
              ==> store.records == old(store.records) && store.calls == old(store.calls)
      ensures r.Ok? && r.value.status != Expired
              ==> store.records == old(store.records) && store.calls == old(store.calls)
      ensures record.status in {Launching, Expired}
              ==> store.calls == old(store.calls) && store.records == old(store.records)
      ensures store.calls >= old(store.calls)
      ensures r.Err? ==> ScrubFails(wire, record) || !store.Quiet(id, old(store.calls), store.calls)
    {
      hide Run, Launched, OnlyScrubs;
      LaunchedIsScrubless(wire, s, store.records, id, now);
      var decoded := wire.decode(record.metadata);
      if decoded.None? { return Err(Invalid); }
      var c := decoded.value.(status := record.status);
      if c.retention == "" {
        c := c.(retention := if c.source.TranscriptAssisted? then DEFAULT_TRANSCRIPT_RETENTION
                             else DEFAULT_REPOSITORY_RETENTION);
      }
      if Due(c, now) {
        var form := FormOf(c, record.projectId);
        var metadata := wire.encodeExpired(form);
        if metadata.None? { return Err(Invalid); }
        SoundForm(wire, record, c);
        if record.status != Expired || record.metadata != metadata.value || !NoSensitiveColumns(record) {
          var error := Scrub(id, record, c, metadata.value, now, s);
          if error.Some? { return Err(error.value); }
        }
        c := Blanked(form);
      }
      return Ok(c);
    }

    static lemma SameScrub(wire: Wire, s: Records, t: Records, id: string)
      requires Launched(s, t)
      ensures id in s <==> id in t
      ensures id in s ==> (ScrubFails(wire, s[id]) <==> ScrubFails(wire, t[id]))
      ensures id in s && s[id].status == Expired ==> t[id] == s[id]
    {
    }

    /** A quiet call finds the row as it was. */
    static lemma QuietRow(store: Store, s: Records, id: string, from: nat, to: nat)
      requires store.Quiet(id, from, to) && from < to && id in s
      ensures !store.fails(from) && id in store.launcher(from, s) && store.launcher(from, s)[id] == s[id]
    {
    }

    /** What is known of a loaded row about to be scrubbed: if it is already expired, writing its
        expired form again would change nothing. */
    static lemma SoundForm(wire: Wire, record: Record, c: Checkpoint)
      requires wire.Lawful() && Sound(wire, record) && Current(wire, record) == Some(c)
      ensures (c.retention != "" && c.revision != "") || record.status == Expired
      ensures record.status == Expired
              ==> wire.encodeExpired(FormOf(c, record.projectId)) == Some(record.metadata)
                  && NoSensitiveColumns(record) && c == Blanked(FormOf(c, record.projectId))
      ensures c.id == record.id
    {
    }

    method Scrub(id: string, record: Record, c: Checkpoint, metadata: string, now: Time, ghost s: Records)
      returns (error: Option<Error>)
      requires Valid()
      requires Launched(s, store.records) && AllSound(wire, store.records)
      requires id in store.records && store.records[id] == record
      requires Current(wire, record) == Some(c) && record.status != Launching && record.status != Expired
      requires Past(c.expiresAt, now)
      requires wire.encodeExpired(FormOf(c, record.projectId)) == Some(metadata)
      modifies store
      ensures Valid() && old(store.history) <= store.history && OnlyScrubs(wire, s, store.records, id, now)
      ensures error != Some(RevisionChanged)
      ensures store.calls >= old(store.calls)
      ensures error.Some? ==> !store.Quiet(id, old(store.calls), store.calls)
      ensures error.None? ==> id in store.records
                              && store.records[id] == ExpiredRecord(FormOf(c, record.projectId), metadata)
                              && Scrubbed(wire, store.records[id]) && store.records[id].id == id
    {
      hide Run;
      SoundForm(wire, record, c);
      var form := FormOf(c, record.projectId);
      ScrubbedForm(wire, c, record.projectId, metadata);
      ghost var m := store.records;
      ReachedIsLaunched(store, m);
      ghost var reached := store.Reached();
      error := store.SaveCheckpoint(ExpiredRecord(form, metadata), Some(record.status), c.revision);
      if store.Quiet(id, old(store.calls), store.calls) { QuietRow(store, m, id, old(store.calls), store.calls); }
      LaunchedTwice(s, m, reached);
      assert LaunchMoved(m[id], reached[id]);
      LaunchedIsScrubless(wire, s, reached, id, now);
      if error.None? { ScrubbedAt(wire, s, reached, id, now, store.records[id]); }
    }

    static lemma LaunchedTwice(s: Records, m: Records, t: Records)
      requires Launched(s, m) && Launched(m, t)
      ensures Launched(s, t)
    {
    }

    static lemma ScrubbedAt(wire: Wire, s: Records, t: Records, id: string, now: Time, b: Record)
      requires Launched(s, t) && id in t && NowScrubbed(wire, t[id], b, now)
      ensures OnlyScrubs(wire, s, t[id := b], id, now)
    {
    }

    // ---- Writing a checkpoint back ------------------------------------------------------------------

    /** Only the row given was rewritten; the launch side may have moved others. */
    static ghost predicate OnlyAt(s: Records, t: Records, id: string) {
      s.Keys == t.Keys && forall k | k in s && k != id :: LaunchMoved(s[k], t[k])
    }

    static lemma RewroteAt(s: Records, m: Records, id: string, b: Record)
      requires Launched(s, m) && id in s
      ensures OnlyAt(s, m[id := b], id)
    {
    }

    /** The revision encoded in a row. */
    ghost function StoredRevision(s: Records, id: string): Option<string> {
      if id in s && wire.decode(s[id].metadata).Some? then Some(Stored(wire, s[id]).revision) else None
    }

    /** Saves a draft or approved checkpoint over the row it was made from. The revision cannot have
        changed since the row was shown; its status can. */
    method SaveOver(c: Checkpoint, metadata: string, expected: Status, expectedRevision: string, ghost s: Records)
      returns (error: Option<Error>)
      requires Valid() && Launched(s, store.records)
      requires c.id in store.records && expected in {Draft, Approved} && c.status in {Draft, Approved}
      requires expectedRevision != ""
      requires wire.encode(c) == Some(metadata) && c.sizeBytes == |metadata| <= MAX_CHECKPOINT_BYTES
      requires wire.Revision(c) == Some(c.revision) && c.retention != ""
      requires StoredRevision(store.records, c.id) == Some(expectedRevision)
      modifies store
      ensures Valid() && old(store.history) <= store.history && store.calls == old(store.calls) + 1
      ensures error.Some? ==> old(store.records)[c.id].status != expected
                              || !store.Quiet(c.id, old(store.calls), store.calls)
      ensures error.Some? ==> Launched(s, store.records) && error != Some(RevisionChanged)
      ensures error.None? ==> OnlyAt(s, store.records, c.id) && c.id in store.records
                              && Current(wire, store.records[c.id]) == Some(c)
                              && store.records[c.id] == RecordOf(wire, c, metadata) && Sound(wire, store.records[c.id])
    {
      hide Run, Authentic, Scrubbed;
      EncodedIsAuthentic(wire, c, metadata);
      ghost var m := store.records;
      ReachedIsLaunched(store, m);
      ghost var reached := store.Reached();
      LaunchedTwice(s, m, reached);
      assert LaunchMoved(m[c.id], reached[c.id]);
      error := store.SaveCheckpoint(RecordOf(wire, c, metadata), Some(expected), expectedRevision);
      if error.None? { RewroteAt(s, reached, c.id, RecordOf(wire, c, metadata)); }
      if store.Quiet(c.id, old(store.calls), store.calls) { QuietRow(store, m, c.id, old(store.calls), store.calls); }
    }

    static lemma CurrentIsStored(wire: Wire, r: Record, c: Checkpoint)
      requires Current(wire, r) == Some(c)
      ensures wire.decode(r.metadata).Some? && c == Stored(wire, r).(status := r.status)
    {
    }

    /** A shown draft or approved checkpoint is the stored one, with a revision to expect. */
    static lemma ShownIsStored(wire: Wire, s: Records, t: Records, id: string, c: Checkpoint)
      requires wire.Lawful() && Launched(s, t) && id in t && t[id].id == id && Sound(wire, t[id])
      requires Current(wire, t[id]) == Some(c) && c.status != Expired
      ensures id in s && wire.decode(s[id].metadata).Some?
      ensures c == Stored(wire, s[id]).(status := c.status) && c.id == id
      ensures c.revision != "" && c.retention != "" && wire.Revision(c) == Some(c.revision)
    {
    }

    /** A draft or approved row that is not due. */
    static ghost predicate Open(s: Records, id: string, now: Time) {
      id in s && s[id].status in {Draft, Approved} && !Past(s[id].expiresAt, now)
    }

    /** An open row is shown with the status it has, unless a call failed or the launch side moved it. */
    lemma ShownWhenQuiet(s: Records, t: Records, id: string, now: Time, c: Checkpoint, from: nat, to: nat)
      requires OnlyScrubs(wire, s, t, id, now) && id in t && Current(wire, t[id]) == Some(c)
      requires c.status != Expired ==> t == store.launcher(from, s) && to == from + 1
      ensures Open(s, id, now) && store.Quiet(id, from, to) ==> c.status == s[id].status && t[id] == s[id]
    {
      if Open(s, id, now) && store.Quiet(id, from, to) {
        OpenStaysOpen(wire, s, t, id, now, c);
        QuietRow(store, s, id, from, to);
      }
    }

    static lemma OpenStaysOpen(wire: Wire, s: Records, t: Records, id: string, now: Time, c: Checkpoint)
      requires Open(s, id, now) && OnlyScrubs(wire, s, t, id, now) && id in t && Current(wire, t[id]) == Some(c)
      ensures c.status != Expired
    {
    }

    // ---- Edit ---------------------------------------------------------------------------------------

    /** The request is well formed for the checkpoint, and every outcome of it can be stored. */
    ghost predicate EditWorks(c: Checkpoint, request: EditRequest) {
      && !InvalidFields(t, request.fields) && PathsInside(t, c.repository)
      && forall d | EditedTo(t, c.(status := Draft), request, d) :: Stampable(wire, d)
    }

    lemma EditWorksAnyStatus(c: Checkpoint, d: Checkpoint, request: EditRequest)
      requires d == c.(status := d.status)
      ensures EditWorks(c, request) <==> EditWorks(d, request)
    {
    }

    /** An edit that the service has no reason of its own to refuse. */
    ghost predicate Editable(s: Records, id: string, request: EditRequest, now: Time) {
      && Showable(s, id) && Open(s, id, now) && !InvalidRedactions(t, request.redactPaths, request.redactText)
      && wire.decode(s[id].metadata).Some? && EditWorks(Stored(wire, s[id]), request)
    }

    /** Replaces the fields of a draft or approved checkpoint, sanitizes every text, and makes it a
        draft again under the revision of its new content. */
    method Edit(id: string, request: EditRequest, now: Time) returns (r: Result<Checkpoint, Error>)
      requires Valid()
      modifies store
      ensures Valid() && old(store.history) <= store.history
      ensures r.Err? ==> OnlyScrubs(wire, old(store.records), store.records, id, now) && r.error != RevisionChanged
      ensures Spared(old(store.records), old(store.Reached()), store.records, id, {Launching, Expired})
      ensures r.Ok? ==> LoadedOpen(old(store.Reached()), id)
      ensures r.Ok? ==> OnlyAt(old(store.records), store.records, id) && id in old(store.records) && id in store.records
      ensures r.Ok? ==> Current(wire, store.records[id]) == Some(r.value) && r.value.status == Draft
                        && wire.Revision(r.value) == Some(r.value.revision)
                        && r.value.sizeBytes == |store.records[id].metadata| <= MAX_CHECKPOINT_BYTES
      ensures r.Ok? ==> wire.decode(old(store.records)[id].metadata).Some?
                        && EditedTo(t, Stored(wire, old(store.records)[id]).(status := Draft), request, r.value)
      ensures r.Ok? ==> forall x | MustVanish(t, request.redactText, x) :: TextsLack(r.value, x)
      ensures r.Ok? ==> r.value.expiresAt.None? || now < r.value.expiresAt.value
      ensures store.calls >= old(store.calls)
      ensures r.Err? ==> !Editable(old(store.records), id, request, now)
                         || !store.Quiet(id, old(store.calls), store.calls)
    {
      hide Run, Authentic, Scrubbed, InvalidRedactions, EditedTo, TextsLack, MustVanish, EditWorks, Showable,
           Launched, OnlyScrubs, OnlyAt, Sound;
      ghost var s := store.records;
      LaunchedTrivially(s);
      LaunchedIsScrubless(wire, s, s, id, now);
      if InvalidRedactions(t, request.redactPaths, request.redactText) { return Err(Invalid); }
      ReachedIsLaunched(store, s);
      r := Show(id, now);
      if r.Err? { return; }
      var c := r.value;
      ShownWhenQuiet(s, store.records, id, now, c, old(store.calls), store.calls);
      if c.status in {Launching, Completed, Expired} { return Err(NotReady); }
      ShownIsStored(wire, s, store.records, id, c);
      EditWorksAnyStatus(Stored(wire, s[id]), c, request);
      r := EditShown(c, request, s);
      if r.Err? { LaunchedIsScrubless(wire, s, store.records, id, now); }
    }

    method EditShown(c: Checkpoint, request: EditRequest, ghost s: Records) returns (r: Result<Checkpoint, Error>)
      requires Valid() && Launched(s, store.records) && c.id in store.records
      requires c.status in {Draft, Approved} && c.revision != "" && c.retention != ""
      requires StoredRevision(store.records, c.id) == Some(c.revision)
      modifies store
      ensures Valid() && old(store.history) <= store.history
      ensures r.Err? ==> Launched(s, store.records) && r.error != RevisionChanged
      ensures r.Ok? ==> OnlyAt(s, store.records, c.id) && c.id in store.records
      ensures r.Ok? ==> Current(wire, store.records[c.id]) == Some(r.value) && r.value.status == Draft
                        && wire.Revision(r.value) == Some(r.value.revision)
                        && r.value.sizeBytes == |store.records[c.id].metadata| <= MAX_CHECKPOINT_BYTES
      ensures r.Ok? ==> EditedTo(t, c.(status := Draft), request, r.value) && r.value.expiresAt == c.expiresAt
      ensures r.Ok? ==> forall x | MustVanish(t, request.redactText, x) :: TextsLack(r.value, x)
      ensures store.calls >= old(store.calls)
      ensures r.Err? ==> !EditWorks(c, request) || old(store.records)[c.id].status != c.status
                         || !store.Quiet(c.id, old(store.calls), store.calls)
    {
      hide Run, Authentic, Scrubbed, EditedTo, TextsLack, MustVanish, Launched, OnlyAt, InvalidFields, Stampable,
           PathsInside;
      var edited := ApplyEdit(t, c, request);
      if edited.Err? { return Err(Invalid); }
      EditedKeeps(t, c, request, edited.value);
      StampKeeps(t, c, request, edited.value, edited.value.(status := Draft));
      var prepared := PrepareCheckpoint(wire, edited.value.(status := Draft));
      StampWorks(wire, edited.value.(status := Draft), prepared);
      if prepared.None? { return Err(Invalid); }
      var d, metadata := prepared.value.0, prepared.value.1;
      if d.sizeBytes > MAX_CHECKPOINT_BYTES { return Err(Oversize); }
      StampKeeps(t, c, request, edited.value, d);
      SameRevision(wire, edited.value.(status := Draft), d);
      var error := SaveOver(d, metadata, c.status, c.revision, s);
      if error.Some? { return Err(error.value); }
      forall x | MustVanish(t, request.redactText, x) ensures TextsLack(d, x) {
        EditRedacts(t, c.(status := Draft), request, d, x);
      }
      return Ok(d);
    }

    /** Preparing a stampable checkpoint succeeds within the limit. */
    static lemma StampWorks(wire: Wire, c: Checkpoint, prepared: Option<(Checkpoint, string)>)
      requires prepared.Some? <==> wire.Revision(c).Some? && wire.encode(c.(revision := wire.Revision(c).value)).Some?
      requires prepared.Some? ==> wire.encode(prepared.value.0) == Some(prepared.value.1)
      requires prepared.Some?
               ==> prepared.value.0 == c.(revision := wire.Revision(c).value, sizeBytes := |prepared.value.1|)
      ensures Stampable(wire, c) ==> prepared.Some? && prepared.value.0.sizeBytes <= MAX_CHECKPOINT_BYTES
    {
      if Stampable(wire, c) { StampableFits(wire, c, prepared.value.0, prepared.value.1); }
    }

    static lemma EditedKeeps(t: Tools, c: Checkpoint, request: EditRequest, d: Checkpoint)
      requires EditedTo(t, c, request, d)
      ensures EditKeeps(c, d)
    {
    }

    static lemma StampKeeps(t: Tools, c: Checkpoint, request: EditRequest, d: Checkpoint, e: Checkpoint)
      requires EditedTo(t, c, request, d)
      requires e == d.(status := Draft, revision := e.revision, sizeBytes := e.sizeBytes)
      ensures EditedTo(t, c.(status := Draft), request, e)
    {
    }

    /** Revision and size are not part of the content, nor is the status. */
    static lemma SameRevision(wire: Wire, c: Checkpoint, d: Checkpoint)
      requires d == c.(status := d.status, revision := d.revision, sizeBytes := d.sizeBytes)
      ensures wire.Revision(d) == wire.Revision(c) && ContentOf(d) == ContentOf(c)
    {
    }

    // ---- Approve ------------------------------------------------------------------------------------

    /** An approval that the service has no reason of its own to refuse. */
    ghost predicate Approvable(s: Records, id: string, revision: string, now: Time) {
      && revision != "" && !InvalidText(revision) && Showable(s, id) && Open(s, id, now)
      && wire.decode(s[id].metadata).Some? && Stored(wire, s[id]).revision == revision
      && Storable(wire, Stored(wire, s[id]).(status := Approved))
    }

    /** Approves exactly the content whose digest is the revision the caller reviewed. Nothing is
        recomputed here: that the stored revision belongs to the stored content is an invariant. */
    method Approve(id: string, revision: string, now: Time) returns (r: Result<Checkpoint, Error>)
      requires Valid()
      modifies store
      ensures Valid() && old(store.history) <= store.history
      ensures r.Err? ==> OnlyScrubs(wire, old(store.records), store.records, id, now)
      ensures r == Err(RevisionChanged) ==> StoredRevision(old(store.records), id).Some?
                                            && StoredRevision(old(store.records), id) != Some(revision)
      ensures Spared(old(store.records), old(store.Reached()), store.records, id, {Launching, Expired})
      ensures r.Ok? ==> LoadedOpen(old(store.Reached()), id)
      ensures r.Ok? ==> OnlyAt(old(store.records), store.records, id) && id in old(store.records) && id in store.records
      ensures r.Ok? ==> Current(wire, store.records[id]) == Some(r.value) && r.value.status == Approved
                        && r.value.sizeBytes == |store.records[id].metadata| <= MAX_CHECKPOINT_BYTES
      ensures r.Ok? ==> r.value.id == id && r.value.revision == revision && wire.Revision(r.value) == Some(revision)
      ensures r.Ok? ==> wire.decode(old(store.records)[id].metadata).Some?
                        && r.value == Stored(wire, old(store.records)[id])
                                        .(status := Approved, sizeBytes := r.value.sizeBytes)
      ensures r.Ok? ==> r.value.expiresAt.None? || now < r.value.expiresAt.value
      ensures store.calls >= old(store.calls)
      ensures r.Err? ==> !Approvable(old(store.records), id, revision, now)
                         || !store.Quiet(id, old(store.calls), store.calls)
    {
      hide Run, Authentic, Scrubbed, InvalidText, Showable, Launched, OnlyScrubs, OnlyAt, Sound, Storable;
      ghost var s := store.records;
      LaunchedTrivially(s);
      LaunchedIsScrubless(wire, s, s, id, now);
      if revision == "" || InvalidText(revision) { return Err(Invalid); }
      ReachedIsLaunched(store, s);
      r := Show(id, now);
      if r.Err? { return; }
      var c := r.value;
      ShownWhenQuiet(s, store.records, id, now, c, old(store.calls), store.calls);
      ShownRevision(wire, s, store.records, id, now, c);
      if c.status in {Launching, Completed, Expired} { return Err(NotReady); }
      if c.revision != revision { return Err(RevisionChanged); }
      ShownIsStored(wire, s, store.records, id, c);
      r := ApproveShown(c, c.revision, s);
      if r.Err? { LaunchedIsScrubless(wire, s, store.records, id, now); }
    }

    /** Finalizing a storable checkpoint succeeds within the limit. */
    static lemma FinalizeWorks(wire: Wire, c: Checkpoint, finalized: Option<(Checkpoint, string)>)
      requires finalized.Some? <==> wire.encode(c).Some?
      requires finalized.Some? ==> wire.encode(finalized.value.0) == Some(finalized.value.1)
      requires finalized.Some? ==> finalized.value.0 == c.(sizeBytes := |finalized.value.1|)
      ensures Storable(wire, c) ==> finalized.Some? && finalized.value.0.sizeBytes <= MAX_CHECKPOINT_BYTES
    {
      if Storable(wire, c) { StorableFits(wire, c, finalized.value.0, finalized.value.1); }
    }

    /** Saves c as approved over the row it was made from. */
    method ApproveShown(c: Checkpoint, expectedRevision: string, ghost s: Records)
      returns (r: Result<Checkpoint, Error>)
      requires Valid() && Launched(s, store.records) && c.id in store.records
      requires c.status in {Draft, Approved} && expectedRevision != "" && c.retention != ""
      requires wire.Revision(c) == Some(c.revision) && StoredRevision(store.records, c.id) == Some(expectedRevision)
      modifies store
      ensures Valid() && old(store.history) <= store.history
      ensures r.Err? ==> Launched(s, store.records) && r.error != RevisionChanged
      ensures r.Ok? ==> OnlyAt(s, store.records, c.id) && c.id in store.records
      ensures r.Ok? ==> Current(wire, store.records[c.id]) == Some(r.value)
                        && r.value == c.(status := Approved, sizeBytes := r.value.sizeBytes)
                        && wire.Revision(r.value) == Some(c.revision)
                        && r.value.sizeBytes == |store.records[c.id].metadata| <= MAX_CHECKPOINT_BYTES
      ensures store.calls >= old(store.calls)
      ensures r.Err? ==> !Storable(wire, c.(status := Approved)) || old(store.records)[c.id].status != c.status
                         || !store.Quiet(c.id, old(store.calls), store.calls)
    {
      hide Run, Authentic, Scrubbed, Launched, OnlyAt, Storable;
      var finalized := FinalizeCheckpoint(wire, c.(status := Approved));
      FinalizeWorks(wire, c.(status := Approved), finalized);
      if finalized.None? { return Err(Invalid); }
      var d, metadata := finalized.value.0, finalized.value.1;
      if d.sizeBytes > MAX_CHECKPOINT_BYTES { return Err(Oversize); }
      SameRevision(wire, c, d);
      var error := SaveOver(d, metadata, c.status, expectedRevision, s);
      if error.Some? { return Err(error.value); }
      return Ok(d);
    }

    /** Edits, then approves the revision the edit returned: what is approved is what was edited in,
        and nothing but a failure, the launch side, the clock or the size limit can stop it. */
    method EditThenApprove(id: string, request: EditRequest, editedAt: Time, approvedAt: Time)
      returns (edited: Result<Checkpoint, Error>, r: Result<Checkpoint, Error>, ghost mid: Records)
      requires Valid() && forall s :: !InvalidText(wire.sha(s))
      modifies store
      ensures Valid() && old(store.history) <= store.history && store.calls >= old(store.calls)
      ensures edited.Ok? ==> id in mid && Current(wire, mid[id]) == Some(edited.value)
      ensures edited.Ok? && r.Ok?
              ==> r.value == edited.value.(status := Approved, sizeBytes := r.value.sizeBytes)
      ensures edited.Ok? && r.Err? ==>
                || !Showable(mid, id) || Past(mid[id].expiresAt, approvedAt)
                || !Storable(wire, edited.value.(status := Approved))
                || !store.Quiet(id, old(store.calls), store.calls)
    {
      hide Run, Authentic, Scrubbed, InvalidText, Showable, Storable, OnlyScrubs, OnlyAt, EditedTo, TextsLack,
           MustVanish, Editable, store.Quiet, Past;
      r := Err(Invalid);
      edited := Edit(id, request, editedAt);
      mid := store.records;
      if edited.Err? { return; }
      ghost var n := store.calls;
      CurrentIsStored(wire, mid[id], edited.value);
      RevisionNotBlank(wire, edited.value);
      r := Approve(id, edited.value.revision, approvedAt);
      if store.Quiet(id, old(store.calls), store.calls) { QuietLater(id, old(store.calls), n, store.calls); }
    }

    static lemma RevisionNotBlank(wire: Wire, c: Checkpoint)
      requires wire.Lawful() && wire.Revision(c) == Some(c.revision)
      ensures c.revision != "" && exists content :: c.revision == wire.sha(content)
    {
    }

    // ---- Assisted approval --------------------------------------------------------------------------

    /** v is the transcript-assisted draft made from c by the request under a retention policy. */
    ghost predicate AssistedFrom(c: Checkpoint, request: EditRequest, policy: Policy, v: Checkpoint) {
      && v.source == TranscriptAssisted
      && Setting(t, policy, TranscriptAssisted) == Ok(v.retention)
      && Expiry(t, v.createdAt, v.retention) == Ok(v.expiresAt)
      && EditedTo(t, c, request, v.(source := c.source, retention := c.retention, expiresAt := c.expiresAt))
      && wire.Revision(v) == Some(v.revision)
    }

    /** The request is well formed for c, and every outcome of it can become an assisted draft. */
    ghost predicate AssistWorks(c: Checkpoint, request: EditRequest, policy: Policy, now: Time) {
      && !InvalidFields(t, request.fields) && PathsInside(t, c.repository)
      && forall d | EditedTo(t, c, request, d) :: ReassignWorks(d, policy, now)
    }

    /** Under the policy d gets an expiry that is ahead, and can be stored with it. */
    ghost predicate ReassignWorks(d: Checkpoint, policy: Policy, now: Time) {
      && Setting(t, policy, TranscriptAssisted).Ok?
      && var retention := Setting(t, policy, TranscriptAssisted).value;
         && Expiry(t, d.createdAt, retention).Ok? && !Past(Expiry(t, d.createdAt, retention).value, now)
         && Stampable(wire, Reassigned(d, retention, Expiry(t, d.createdAt, retention).value))
    }

    static function Reassigned(d: Checkpoint, retention: string, expiresAt: Option<Time>): Checkpoint {
      d.(source := TranscriptAssisted, retention := retention, expiresAt := expiresAt)
    }

    /** An assisted preview that the service has no reason of its own to refuse. */
    ghost predicate Assistable(s: Records, id: string, revision: string, request: EditRequest, policy: Policy,
                               now: Time) {
      && !t.blank(revision) && !InvalidText(revision) && !InvalidRedactions(t, request.redactPaths, request.redactText)
      && Showable(s, id) && Open(s, id, now) && s[id].status == Draft
      && wire.decode(s[id].metadata).Some?
      && var c := Stored(wire, s[id]).(status := Draft);
         c.source == RepositoryFirst && c.revision == revision && AssistWorks(c, request, policy, now)
    }

    /** Builds the assisted draft from a reviewed repository-first draft; writes nothing. The policy
        is the one in force at the call after the load. */
    method PreviewAssisted(id: string, revision: string, request: EditRequest, now: Time)
      returns (r: Result<Checkpoint, Error>)
      requires Valid()
      modifies store
      ensures Valid() && old(store.history) <= store.history
      ensures r.Err? ==> OnlyScrubs(wire, old(store.records), store.records, id, now)
      ensures Spared(old(store.records), old(store.Reached()), store.records, id, {Launching, Expired})
      ensures r.Ok? ==> LoadedOpen(old(store.Reached()), id) && old(store.Reached())[id].status == Draft
      ensures r.Ok? ==> Launched(old(store.records), store.records) && store.records == old(store.Reached())
      ensures r.Ok? ==> id in old(store.records) && wire.decode(old(store.records)[id].metadata).Some?
                        && Stored(wire, old(store.records)[id]).revision == revision != ""
                        && Stored(wire, old(store.records)[id]).source == RepositoryFirst
                        && AssistedFrom(Stored(wire, old(store.records)[id]).(status := Draft), request,
                                        store.policyAt(old(store.calls) + 1), r.value)
      ensures r.Ok? ==> wire.Revision(r.value) == Some(r.value.revision)
      ensures r.Ok? ==> r.value.id == id && id in store.records && r.value.status == Draft && r.value.retention != ""
                        && (r.value.expiresAt.None? || now < r.value.expiresAt.value)
                        && r.value.sizeBytes <= MAX_CHECKPOINT_BYTES
      ensures store.calls >= old(store.calls) && (r.Ok? ==> store.calls == old(store.calls) + 2)
      ensures r.Err? ==> !Assistable(old(store.records), id, revision, request,
                                     store.policyAt(old(store.calls) + 1), now)
                         || !store.Quiet(id, old(store.calls), store.calls)
    {
      hide Run, Authentic, Scrubbed, InvalidText, InvalidRedactions, AssistedFrom, AssistWorks, Showable,
           Launched, OnlyScrubs, Sound, Wire.Lawful;
      ghost var s := store.records;
      LaunchedTrivially(s);
      LaunchedIsScrubless(wire, s, s, id, now);
      if t.blank(revision) || InvalidText(revision) || InvalidRedactions(t, request.redactPaths, request.redactText) {
        return Err(Invalid);
      }
      ReachedIsLaunched(store, s);
      r := Show(id, now);
      if r.Err? { return; }
      var c := r.value;
      ShownWhenQuiet(s, store.records, id, now, c, old(store.calls), store.calls);
      ShownRevision(wire, s, store.records, id, now, c);
      if Open(s, id, now) && store.Quiet(id, old(store.calls), store.calls) { CurrentIsStored(wire, s[id], c); }
      if c.status != Draft || c.source != RepositoryFirst || c.revision != revision { return Err(RevisionChanged); }
      ShownIsStored(wire, s, store.records, id, c);
      LaunchedIsScrubless(wire, s, store.records, id, now);
      r := AssistShown(c, request, now);
    }

    method AssistShown(c: Checkpoint, request: EditRequest, now: Time) returns (r: Result<Checkpoint, Error>)
      requires Valid() && c.status == Draft
      modifies store`calls
      ensures Valid() && store.calls >= old(store.calls) && (r.Ok? ==> store.calls == old(store.calls) + 1)
      ensures r.Err? ==> !AssistWorks(c, request, store.policyAt(old(store.calls)), now)
                         || !store.Quiet(c.id, old(store.calls), store.calls)
      ensures r.Ok? ==> AssistedFrom(c, request, store.policyAt(old(store.calls)), r.value)
                        && wire.Revision(r.value) == Some(r.value.revision)
      ensures r.Ok? ==> r.value.id == c.id && r.value.status == Draft && r.value.retention != ""
                        && (r.value.expiresAt.None? || now < r.value.expiresAt.value)
                        && r.value.sizeBytes <= MAX_CHECKPOINT_BYTES
    {
      hide Run, EditedTo, Expiry, InvalidFields, PathsInside, Setting, ReassignWorks, AssistedFrom;
      var edited := ApplyEdit(t, c, request);
      if edited.Err? { return Err(Invalid); }
      EditedKeeps(t, c, request, edited.value);
      r := Reassign(edited.value, now);
      if r.Ok? { AssistKeeps(c, request, store.policyAt(old(store.calls)), edited.value, r.value); }
    }

    /** Gives an edited draft the source, retention and expiry of an assisted one. */
    method Reassign(edited: Checkpoint, now: Time) returns (r: Result<Checkpoint, Error>)
      requires Valid()
      modifies store`calls
      ensures Valid() && store.calls >= old(store.calls) && (r.Ok? ==> store.calls == old(store.calls) + 1)
      ensures r.Err? ==> !ReassignWorks(edited, store.policyAt(old(store.calls)), now)
                         || !store.Quiet(edited.id, old(store.calls), store.calls)
      ensures r.Ok? ==> Setting(t, store.policyAt(old(store.calls)), TranscriptAssisted) == Ok(r.value.retention)
                        && Expiry(t, edited.createdAt, r.value.retention) == Ok(r.value.expiresAt)
      ensures r.Ok? ==> r.value == Reassigned(edited, r.value.retention, r.value.expiresAt)
                                     .(revision := r.value.revision, sizeBytes := r.value.sizeBytes)
      ensures r.Ok? ==> wire.Revision(r.value) == Some(r.value.revision) && r.value.retention != ""
                        && (r.value.expiresAt.None? || now < r.value.expiresAt.value)
                        && r.value.sizeBytes <= MAX_CHECKPOINT_BYTES
    {
      hide Run, Expiry, Stampable;
      var policy := store.CheckpointRetention();
      if policy.Err? { return Err(policy.error); }
      var retention := Setting(t, policy.value, TranscriptAssisted);
      if retention.Err? { return Err(retention.error); }
      var expiresAt := Expiry(t, edited.createdAt, retention.value);
      if expiresAt.Err? { return Err(expiresAt.error); }
      if Past(expiresAt.value, now) { return Err(NotReady); }
      var assisted := Reassigned(edited, retention.value, expiresAt.value);
      var prepared := PrepareCheckpoint(wire, assisted);
      StampWorks(wire, assisted, prepared);
      if prepared.None? { return Err(Invalid); }
      var d := prepared.value.0;
      if d.sizeBytes > MAX_CHECKPOINT_BYTES { return Err(Oversize); }
      SameRevision(wire, assisted, d);
      return Ok(d);
    }

    lemma AssistKeeps(c: Checkpoint, request: EditRequest, policy: Policy, d: Checkpoint, v: Checkpoint)
      requires EditedTo(t, c, request, d) && d.createdAt == c.createdAt
      requires Setting(t, policy, TranscriptAssisted) == Ok(v.retention)
      requires Expiry(t, d.createdAt, v.retention) == Ok(v.expiresAt)
      requires v == Reassigned(d, v.retention, v.expiresAt).(revision := v.revision, sizeBytes := v.sizeBytes)
      requires wire.Revision(v) == Some(v.revision)
      ensures AssistedFrom(c, request, policy, v)
    {
    }

    /** The assisted drafts that can come of a request have the previewed revision and can be stored. */
    ghost predicate Foreseen(c: Checkpoint, request: EditRequest, policy: Policy, previewRevision: string) {
      forall v | AssistedFrom(c, request, policy, v) ::
        v.revision == previewRevision && Storable(wire, v.(status := Approved))
    }

    /** Approves the assisted draft only if it still has the revision that was previewed: a change of
        the stored draft, of the request or of the retention policy since then gives another. */
    method ApproveAssisted(id: string, revision: string, previewRevision: string, request: EditRequest, now: Time)
      returns (r: Result<Checkpoint, Error>)
      requires Valid()
      modifies store
      ensures Valid() && old(store.history) <= store.history
      ensures r.Err? ==> OnlyScrubs(wire, old(store.records), store.records, id, now)
      ensures r.Ok? ==> OnlyAt(old(store.records), store.records, id) && id in old(store.records) && id in store.records
      ensures r.Ok? ==> Current(wire, store.records[id]) == Some(r.value) && r.value.status == Approved
                        && r.value.sizeBytes == |store.records[id].metadata| <= MAX_CHECKPOINT_BYTES
      ensures Spared(old(store.records), old(store.Reached()), store.records, id, {Launching, Expired})
      ensures r.Ok? ==> LoadedOpen(old(store.Reached()), id) && old(store.Reached())[id].status == Draft
      ensures r.Ok? ==> r.value.id == id && r.value.revision == previewRevision
                        && wire.Revision(r.value) == Some(previewRevision)
      ensures r.Ok? ==> wire.decode(old(store.records)[id].metadata).Some?
                        && Stored(wire, old(store.records)[id]).revision == revision
                        && Stored(wire, old(store.records)[id]).source == RepositoryFirst
                        && AssistedFrom(Stored(wire, old(store.records)[id]).(status := Approved), request,
                                        store.policyAt(old(store.calls) + 1), r.value)
      ensures store.calls >= old(store.calls)
      ensures r.Err? ==>
                || t.blank(previewRevision) || InvalidText(previewRevision)
                || !Assistable(old(store.records), id, revision, request, store.policyAt(old(store.calls) + 1), now)
                || !Foreseen(Stored(wire, old(store.records)[id]).(status := Draft), request,
                             store.policyAt(old(store.calls) + 1), previewRevision)
                || !store.Quiet(id, old(store.calls), store.calls)
    {
      hide Run, Authentic, Scrubbed, InvalidText, AssistedFrom, Storable, AssistWorks, Showable, OnlyAt, Sound,
           InvalidRedactions,
           Launched, OnlyScrubs, Foreseen, Open;
      ghost var s := store.records;
      LaunchedTrivially(s);
      LaunchedIsScrubless(wire, s, s, id, now);
      if t.blank(previewRevision) || InvalidText(previewRevision) { return Err(Invalid); }
      r := PreviewAssisted(id, revision, request, now);
      if r.Err? { return; }
      LaunchedIsScrubless(wire, s, store.records, id, now);
      var v := r.value;
      ghost var policy := store.policyAt(old(store.calls) + 1);
      SameDraft(s, store.records, id);
      UseForeseen(Stored(wire, s[id]).(status := Draft), request, policy, previewRevision, v);
      if v.revision != previewRevision { return Err(RevisionChanged); }
      r := ApproveShown(v, revision, s);
      if r.Err? {
        LaunchedIsScrubless(wire, s, store.records, id, now);
      } else {
        AssistApproved(Stored(wire, s[id]), request, policy, v, r.value);
      }
    }

    lemma UseForeseen(c: Checkpoint, request: EditRequest, policy: Policy, previewRevision: string, v: Checkpoint)
      requires AssistedFrom(c, request, policy, v)
      ensures Foreseen(c, request, policy, previewRevision)
              ==> v.revision == previewRevision && Storable(wire, v.(status := Approved))
    {
    }

    lemma AssistApproved(c: Checkpoint, request: EditRequest, policy: Policy, v: Checkpoint, d: Checkpoint)
      requires AssistedFrom(c.(status := Draft), request, policy, v)
      requires d == v.(status := Approved, sizeBytes := d.sizeBytes) && wire.Revision(d) == Some(d.revision)
      ensures AssistedFrom(c.(status := Approved), request, policy, d)
    {
    }

    /** What an assisted draft differs in from the draft it was made of: the policy's retention for
        assisted checkpoints, counted from the creation of the draft, and the edited texts. */
    lemma AssistedExactly(c: Checkpoint, request: EditRequest, policy: Policy, v: Checkpoint)
      requires AssistedFrom(c, request, policy, v)
      ensures v.source == TranscriptAssisted && v.id == c.id && v.createdAt == c.createdAt && v.status == c.status
      ensures v.retention == if policy.transcriptAssisted != "" then policy.transcriptAssisted else "7"
      ensures if v.retention == "unlimited" then v.expiresAt.None?
              else t.atoi(v.retention).Some?
                   && v.expiresAt == Some(c.createdAt + t.atoi(v.retention).value * 86_400_000_000_000)
      ensures ConfirmedText(t, request.redactText, request.fields.goal.value, v.fields.goal)
      ensures ConfirmedText(t, request.redactText, request.fields.nextAction.value, v.fields.nextAction)
    {
      hide Sanitized, FieldsCleaned, PathsRedacted, Clean, ConfirmedText, ConfirmedValidation, Setting, Expiry,
           ParseRetention;
      FieldsExactly(t, request.redactText, request.fields, v.fields);
      SettingExactly(t, policy, TranscriptAssisted);
      ExpiryExactly(t, v.createdAt, v.retention);
    }

    /** An assisted draft is determined by the draft, the request and the policy. */
    lemma AssistUnique(c: Checkpoint, request: EditRequest, policy: Policy, a: Checkpoint, b: Checkpoint)
      requires AssistedFrom(c, request, policy, a) && AssistedFrom(c, request, policy, b)
      ensures a == b.(sizeBytes := a.sizeBytes)
    {
      hide EditedTo, Setting, Expiry;
      var a', b' := a.(source := c.source, retention := c.retention, expiresAt := c.expiresAt),
                    b.(source := c.source, retention := c.retention, expiresAt := c.expiresAt);
      EditUnique(t, c, request, a', b');
      assert a'.createdAt == b'.createdAt;
      assert ContentOf(a) == ContentOf(b);
    }

    /** Undoes the approval of an assisted draft. */
    lemma AssistDraft(c: Checkpoint, request: EditRequest, policy: Policy, d: Checkpoint)
      requires AssistedFrom(c.(status := Approved), request, policy, d)
      ensures d.status == Approved && AssistedFrom(c.(status := Draft), request, policy, d.(status := Draft))
    {
    }

    /** Approved or not, the same draft, request and policy give the same assisted checkpoint. */
    lemma AssistSame(c: Checkpoint, request: EditRequest, policy: Policy, v: Checkpoint, d: Checkpoint)
      requires AssistedFrom(c.(status := Draft), request, policy, v)
      requires AssistedFrom(c.(status := Approved), request, policy, d)
      ensures d == v.(status := Approved, sizeBytes := d.sizeBytes)
    {
      hide AssistedFrom;
      AssistDraft(c, request, policy, d);
      AssistUnique(c.(status := Draft), request, policy, d.(status := Draft), v);
    }

    lemma QuietLater(id: string, from: nat, mid: nat, to: nat)
      requires store.Quiet(id, from, to) && from <= mid
      ensures store.Quiet(id, mid, to)
    {
    }

    lemma ForeseenAfterPreview(c: Checkpoint, request: EditRequest, policy: Policy, v: Checkpoint)
      requires wire.Lawful() && AssistedFrom(c, request, policy, v) && Storable(wire, v.(status := Approved))
      ensures Foreseen(c, request, policy, v.revision)
    {
      hide AssistedFrom, Storable;
      forall w | AssistedFrom(c, request, policy, w)
        ensures w.revision == v.revision && Storable(wire, w.(status := Approved))
      {
        AssistUnique(c, request, policy, w, v);
        StorableAnySize(wire, v.(status := Approved), w.sizeBytes);
        assert v.(status := Approved).(sizeBytes := w.sizeBytes) == w.(status := Approved);
      }
    }

    /** Previews an assisted draft, then approves it under the revision that was shown. With the row
        and the policy left alone in between, an approval that fits is granted, and approves exactly
        what was previewed. */
    method ReviewAssisted(id: string, revision: string, request: EditRequest, previewedAt: Time, approvedAt: Time)
      returns (preview: Result<Checkpoint, Error>, r: Result<Checkpoint, Error>)
      requires Valid() && forall s :: !t.blank(wire.sha(s)) && !InvalidText(wire.sha(s))
      modifies store
      ensures Valid() && old(store.history) <= store.history && store.calls >= old(store.calls)
      ensures store.Quiet(id, old(store.calls), store.calls)
              && Assistable(old(store.records), id, revision, request,
                            store.policyAt(old(store.calls) + 1), previewedAt)
              ==> preview.Ok?
      ensures preview.Ok? && store.Quiet(id, old(store.calls), store.calls)
              && store.policyAt(old(store.calls) + 1) == store.policyAt(old(store.calls) + 3)
              && Assistable(old(store.records), id, revision, request, store.policyAt(old(store.calls) + 1), approvedAt)
              && Storable(wire, preview.value.(status := Approved))
              ==> r.Ok?
      ensures preview.Ok? && r.Ok? && store.policyAt(old(store.calls) + 1) == store.policyAt(old(store.calls) + 3)
              ==> r.value == preview.value.(status := Approved, sizeBytes := r.value.sizeBytes)
    {
      hide Run, Assistable, Authentic, Scrubbed, InvalidText, AssistedFrom, Storable, OnlyScrubs, OnlyAt, Foreseen,
           Launched,
           store.Quiet, Sound, Current, Past, Spared, LoadedOpen, Wire.Lawful;
      ghost var s, n := store.records, store.calls;
      r := Err(Invalid);
      preview := PreviewAssisted(id, revision, request, previewedAt);
      if preview.Err? { return; }
      var v := preview.value;
      ghost var m, policy := store.records, store.policyAt(n + 1);
      ghost var c := Stored(wire, s[id]).(status := Draft);
      SameDraft(s, m, id);
      r := ApproveAssisted(id, revision, v.revision, request, approvedAt);
      if store.Quiet(id, n, store.calls) && Storable(wire, v.(status := Approved)) {
        QuietRow(store, s, id, n, store.calls);
        QuietLater(id, n, n + 2, store.calls);
        AssistableSameRow(s, m, id, revision, request, policy, approvedAt);
        ForeseenAfterPreview(c, request, policy, v);
      }
      if r.Ok? && policy == store.policyAt(n + 3) {
        AssistSame(Stored(wire, m[id]), request, policy, v, r.value);
      }
    }

    lemma SameDraft(s: Records, m: Records, id: string)
      requires Launched(s, m) && id in s && wire.decode(s[id].metadata).Some?
      ensures id in m && m[id].metadata == s[id].metadata
    {
    }

    lemma AssistableSameRow(s: Records, m: Records, id: string, revision: string, request: EditRequest,
                            policy: Policy, now: Time)
      requires id in s && id in m && s[id] == m[id]
      ensures Assistable(s, id, revision, request, policy, now) <==> Assistable(m, id, revision, request, policy, now)
    {
    }

    // ---- Purge --------------------------------------------------------------------------------------

    /** A purge that the service has no reason of its own to refuse. */
    ghost predicate Purgeable(s: Records, id: string, revision: string) {
      && !t.blank(revision) && !InvalidText(revision) && Showable(s, id)
      && s[id].status != Launching
      && wire.decode(s[id].metadata).Some? && Stored(wire, s[id]).revision == revision
    }

    /** Deletes one exact revision, whatever show made of the row first. Only a launch that still
        refers to the checkpoint stands in the way of a purgeable one. */
    method Purge(id: string, revision: string, now: Time) returns (error: Option<Error>)
      requires Valid()
      modifies store
      ensures Valid() && old(store.history) <= store.history
      ensures error.Some? ==> OnlyScrubs(wire, old(store.records), store.records, id, now)
      ensures Spared(old(store.records), old(store.Reached()), store.records, id, {Launching})
      ensures error.None? ==> id in old(store.Reached()) && old(store.Reached())[id].status != Launching
      ensures error.None? ==> id in old(store.records) && store.records.Keys == old(store.records).Keys - {id}
      ensures error.None? ==> forall k | k in store.records :: LaunchMoved(old(store.records)[k], store.records[k])
      ensures error.None? ==> wire.decode(old(store.records)[id].metadata).Some?
                              && Stored(wire, old(store.records)[id]).revision == revision
      ensures store.calls >= old(store.calls)
      ensures error.Some? ==> !Purgeable(old(store.records), id, revision)
                              || !store.Quiet(id, old(store.calls), store.calls)
                              || (store.calls > 0 && store.busy(store.calls - 1, id))
    {
      hide Run, Authentic, Scrubbed, InvalidText, Launched, OnlyScrubs, Sound, ScrubFails, Wire.Lawful, Past;
      ghost var s := store.records;
      ReachedIsLaunched(store, s);
      SameScrub(wire, s, store.Reached(), id);
      LaunchedTrivially(s);
      LaunchedIsScrubless(wire, s, s, id, now);
      if t.blank(id) || t.blank(revision) || InvalidText(id) || InvalidText(revision) { return Some(Invalid); }
      var shown := Show(id, now);
      if shown.Err? { return Some(shown.error); }
      var c := shown.value;
      ghost var m := store.records;
      ShownRevision(wire, s, m, id, now, c);
      NotLaunching(s, m, id, now, c, old(store.calls), store.calls);
      if c.revision != revision { return Some(RevisionChanged); }
      if c.status == Launching { return Some(NotReady); }
      ReachedIsLaunched(store, m);
      ghost var reached := store.Reached();
      MovesAfterScrub(wire, s, m, reached, id, now);
      assert wire.decode(m[id].metadata).value.revision == revision && m[id].status != Launching;
      error := PurgeShown(id, revision, m);
    }

    method PurgeShown(id: string, revision: string, ghost m: Records) returns (error: Option<Error>)
      requires Valid() && m == store.records && id in m && m[id].status != Launching
      requires StoredRevision(m, id) == Some(revision)
      modifies store
      ensures Valid() && old(store.history) <= store.history && store.calls == old(store.calls) + 1
      ensures error.None? ==> store.records == old(store.Reached()) - {id}
      ensures error.Some? ==> store.records == old(store.Reached())
      ensures error.Some? ==> store.busy(old(store.calls), id) || !store.Quiet(id, old(store.calls), store.calls)
    {
      hide Run;
      error := store.PurgeCheckpoint(id, revision);
      if store.Quiet(id, old(store.calls), store.calls) { QuietRow(store, m, id, old(store.calls), store.calls); }
    }

    /** A row that is not launching is shown as not launching, unless the launch side moved it. */
    lemma NotLaunching(s: Records, t: Records, id: string, now: Time, c: Checkpoint, from: nat, to: nat)
      requires id in s && id in t && Current(wire, t[id]) == Some(c)
      requires c.status != Expired ==> t == store.launcher(from, s) && to == from + 1
      ensures s[id].status != Launching && store.Quiet(id, from, to)
              ==> c.status != Launching && t[id].status != Launching
    {
      if c.status != Expired && store.Quiet(id, from, to) { QuietRow(store, s, id, from, to); }
    }

    /** What the launch side does after a scrub leaves the scrubbed row alone. */
    static lemma MovesAfterScrub(wire: Wire, s: Records, m: Records, t: Records, id: string, now: Time)
      requires OnlyScrubs(wire, s, m, id, now) && Launched(m, t)
      ensures OnlyScrubs(wire, s, t, id, now)
      ensures forall k | k in s && k != id :: LaunchMoved(s[k], t[k])
    {
      forall k | k in s ensures LaunchMoved(s[k], t[k]) || (k == id && NowScrubbed(wire, s[k], t[k], now)) {
        assert LaunchMoved(m[k], t[k]);
      }
    }

    static lemma ShownRevision(wire: Wire, s: Records, m: Records, id: string, now: Time, c: Checkpoint)
      requires OnlyScrubs(wire, s, m, id, now) && id in m && Current(wire, m[id]) == Some(c)
      ensures id in s && wire.decode(s[id].metadata).Some? && Stored(wire, s[id]).revision == c.revision
    {
    }

    // ---- Handoff ------------------------------------------------------------------------------------

    predicate Named(v: string) {
      !t.blank(v) && !InvalidText(v)
    }

    /** Row and encoded checkpoint agree where the program compares them, and in the revision. */
    static lemma StoredAgrees(wire: Wire, record: Record, c: Checkpoint)
      requires Sound(wire, record) && wire.decode(record.metadata) == Some(c)
      ensures record.status == Approved
              ==> c.project.id == record.projectId && c.expiresAt == record.expiresAt
                  && wire.Revision(c) == Some(c.revision)
    {
    }

    /** The stored row is an approved, unexpired checkpoint under the revision, of some project. */
    static ghost predicate HandoffReady(wire: Wire, s: Records, id: string, revision: string, now: Time) {
      && id in s && s[id].status == Approved && !Past(s[id].expiresAt, now) && s[id].projectId != ""
      && wire.decode(s[id].metadata).Some?
      && Stored(wire, s[id]).status == Approved && Stored(wire, s[id]).revision == revision
    }

    /** Hands over an approved checkpoint as it is stored. The source launch, the working directory
        and the fresh inspection are what the other components report. */
    method PrepareHandoff(id: string, revision: string, targetProfile: string, now: Time,
                          source: Result<SourceLaunch, Error>, location: Result<string, Error>, inspected: bool)
      returns (r: Result<Handoff, Error>)
      requires Valid()
      modifies store
      ensures Valid() && old(store.history) <= store.history && Launched(old(store.records), store.records)
      ensures r.Ok? <==>
                && Named(id) && Named(revision) && Named(targetProfile)
                && HandoffReady(wire, store.records, id, revision, now) && !store.fails(old(store.calls))
                && source.Ok? && location.Ok? && inspected && source.value.state == Exited
                && source.value.profileId != "" && source.value.profileId != targetProfile
      ensures r.Ok? ==> wire.Revision(Stored(wire, store.records[id])) == Some(revision)
      ensures r.Ok? ==> store.records[id].status == Approved && Stored(wire, store.records[id]).status == Approved
                        && Stored(wire, store.records[id]).revision == revision
      ensures r.Ok? ==> store.records[id].expiresAt.None? || now < store.records[id].expiresAt.value
      ensures r.Ok? ==> r.value == Handoff(id, revision, store.records[id].projectId, source.value.profileId,
                                           location.value, store.records[id].metadata)
    {
      hide Run, Authentic, Scrubbed, Sound, InvalidText, Launched, Wire.Lawful;
      ghost var s := store.records;
      LaunchedTrivially(s);
      if t.blank(id) || t.blank(revision) || t.blank(targetProfile)
         || InvalidText(id) || InvalidText(revision) || InvalidText(targetProfile) {
        return Err(Invalid);
      }
      ReachedIsLaunched(store, s);
      var loaded := store.LoadCheckpoint(id);
      if loaded.Err? { return Err(loaded.error); }
      var record := loaded.value;
      var decoded := wire.decode(record.metadata);
      if decoded.None? { return Err(Invalid); }
      var c := decoded.value;
      StoredAgrees(wire, record, c);
      if record.status != Approved || c.status != Approved || c.revision != revision || record.projectId == ""
         || c.project.id != record.projectId || Past(record.expiresAt, now) || c.expiresAt != record.expiresAt {
        return Err(NotReady);
      }
      if source.Err? { return Err(source.error); }
      if source.value.state != Exited || source.value.profileId == "" || source.value.profileId == targetProfile {
        return Err(NotReady);
      }
      if location.Err? { return Err(location.error); }
      if !inspected { return Err(Invalid); }
      return Ok(Handoff(id, revision, record.projectId, source.value.profileId, location.value, record.metadata));
    }

    static lemma LaunchedTrivially(s: Records)
      ensures Launched(s, s)
    {
    }

    // ---- Capture ------------------------------------------------------------------------------------

    static predicate InvalidCapture(t: Tools, q: CaptureRequest) {
      || t.blank(q.path)
      || (exists v | v in [q.alias, q.goal, q.completedWork, q.pendingWork, q.risks, q.nextAction]
                          + q.configuredCommands ::
            InvalidText(v))
      || InvalidRedactions(t, q.redactPaths, q.redactText)
      || (q.validation.Some? && InvalidValidation(t, q.validation.value))
    }

    static function Observed<T>(value: T, known: bool): Evidence<T> {
      Evidence(value, LocalObserved, if known then Complete else UnknownCompleteness)
    }

    static function UserValues(values: seq<string>): Evidence<seq<string>> {
      if values == [] then Evidence([], UnknownProvenance, UnknownCompleteness)
      else Evidence(values, UserConfirmed, Complete)
    }

    /** The fields a capture request asks for, before sanitizing. */
    static function RequestedFields(q: CaptureRequest): Fields {
      Fields(NO_TEXT.(value := q.goal), NO_TEXT.(value := q.completedWork), NO_TEXT.(value := q.pendingWork),
             Evidence(if q.validation.Some? then [q.validation.value] else [], UnknownProvenance, UnknownCompleteness),
             NO_TEXT.(value := q.risks), NO_TEXT.(value := q.nextAction))
    }

    /** The repository state of a capture: observed facts labelled, branch and commands sanitized,
        redacted paths replaced. */
    static ghost predicate CapturedRepository(t: Tools, q: CaptureRequest, found: Inventory, r: RepositoryState) {
      var redacted := Normalized(t, q.redactPaths);
      && r.branch == Observed(Clean(t, q.redactText, found.branch), Clean(t, q.redactText, found.branch) != "")
      && r.head == Observed(found.head, found.head != "")
      && r.upstream == Observed(found.upstream, found.upstream.Some?)
      && r.diff == Observed(found.diff, true) && r.staged == Observed(r.staged.value, true)
      && r.modified == Observed(r.modified.value, true) && r.untracked == Observed(r.untracked.value, true)
      && r.configuredCommands == UserValues(r.configuredCommands.value)
      && ListRedacted(t, found.staged, r.staged.value, redacted)
      && ListRedacted(t, found.modified, r.modified.value, redacted)
      && ListRedacted(t, found.untracked, r.untracked.value, redacted)
      && found.configuredCommands <= r.configuredCommands.value
      && |r.configuredCommands.value| == |found.configuredCommands| + |q.configuredCommands|
      && forall i | 0 <= i < |q.configuredCommands| ::
           r.configuredCommands.value[|found.configuredCommands| + i] == Clean(t, q.redactText, q.configuredCommands[i])
    }

    /** Every path found stays inside the repository. */
    static predicate FoundInside(t: Tools, found: Inventory) {
      forall p | p in found.staged + found.modified + found.untracked :: !InvalidRelativePath(t, p)
    }

    method CaptureRepository(q: CaptureRequest, found: Inventory) returns (r: Option<RepositoryState>)
      ensures r.Some? <==> FoundInside(t, found)
      ensures r.Some? ==> CapturedRepository(t, q, found, r.value)
    {
      hide Clean, InvalidRelativePath;
      var branch := SanitizeText(found.branch, t.home, q.redactText, t.fold);
      var redacted := Normalized(t, q.redactPaths);
      var staged := SanitizePaths(t, found.staged, redacted);
      if staged.None? { return None; }
      var modified := SanitizePaths(t, found.modified, redacted);
      if modified.None? { return None; }
      var untracked := SanitizePaths(t, found.untracked, redacted);
      if untracked.None? { return None; }
      var commands := CleanAll(t, q.redactText, q.configuredCommands);
      assert branch == Clean(t, q.redactText, found.branch) by { CleanIsSanitized(t, q.redactText, found.branch); }
      return Some(RepositoryState(
        Observed(branch, branch != ""), Observed(found.head, found.head != ""),
        Observed(found.upstream, found.upstream.Some?),
        Observed(staged.value, true), Observed(modified.value, true), Observed(untracked.value, true),
        Observed(found.diff, true), UserValues(found.configuredCommands + commands)));
    }

    static lemma CleanIsSanitized(t: Tools, redactions: seq<string>, text: string)
      ensures Sanitized(text, t.home, redactions, t.fold) == Clean(t, redactions, text)
    {
    }

    /** c is what capturing the request gives at the time `now` under a retention policy. */
    ghost predicate CapturedFrom(q: CaptureRequest, id: string, project: Project, found: Inventory, policy: Policy,
                                 now: Time, c: Checkpoint) {
      && c.id == id && c.status == Draft && c.source == RepositoryFirst && c.createdAt == now
      && c.project == Project(project.id, Clean(t, q.redactText, project.alias),
                              Clean(t, q.redactText, project.basename))
      && Setting(t, policy, RepositoryFirst) == Ok(c.retention)
      && Expiry(t, now, c.retention) == Ok(c.expiresAt)
      && CapturedRepository(t, q, found, c.repository)
      && FieldsCleaned(t, q.redactText, RequestedFields(q), c.fields)
    }

    /** Redactions and the home are gone from every text of a capture that is sanitized. */
    lemma CaptureRedacts(q: CaptureRequest, id: string, project: Project, found: Inventory, policy: Policy,
                         now: Time, c: Checkpoint, x: string)
      requires CapturedFrom(q, id, project, found, policy, now, c) && MustVanish(t, q.redactText, x)
      ensures FieldsLack(c.fields, x)
      ensures !Contains(c.project.alias, x) && !Contains(c.project.basename, x)
              && !Contains(c.repository.branch.value, x)
      ensures forall i | |found.configuredCommands| <= i < |c.repository.configuredCommands.value| ::
                !Contains(c.repository.configuredCommands.value[i], x)
    {
      hide Contains, Clean, MustVanish, FieldsCleaned, FieldsLack, Setting, Expiry, ListRedacted;
      FieldsVanish(t, q.redactText, RequestedFields(q), c.fields, x);
      CleanLacks(t, q.redactText, project.alias, x);
      CleanLacks(t, q.redactText, project.basename, x);
      CleanLacks(t, q.redactText, found.branch, x);
      forall i | |found.configuredCommands| <= i < |c.repository.configuredCommands.value|
        ensures !Contains(c.repository.configuredCommands.value[i], x)
      {
        var command := q.configuredCommands[i - |found.configuredCommands|];
        CleanLacks(t, q.redactText, command, x);
        assert c.repository.configuredCommands.value[|found.configuredCommands| + (i - |found.configuredCommands|)]
               == Clean(t, q.redactText, command);
      }
    }

    /** What a capture holds, in terms of the request, the inspection and the policy. */
    lemma CapturedExactly(q: CaptureRequest, id: string, project: Project, found: Inventory, policy: Policy,
                          now: Time, c: Checkpoint)
      requires CapturedFrom(q, id, project, found, policy, now, c)
      ensures c.status == Draft && c.source == RepositoryFirst && c.createdAt == now && c.id == id
      ensures c.project.id == project.id
              && c.project.alias == Sanitized(project.alias, t.home, q.redactText, t.fold)
              && c.project.basename == Sanitized(project.basename, t.home, q.redactText, t.fold)
      ensures c.retention == if policy.repositoryFirst != "" then policy.repositoryFirst else "30"
      ensures if c.retention == "unlimited" then c.expiresAt.None?
              else t.atoi(c.retention).Some?
                   && c.expiresAt == Some(now + t.atoi(c.retention).value * 86_400_000_000_000)
      ensures ConfirmedText(t, q.redactText, q.goal, c.fields.goal)
      ensures ConfirmedText(t, q.redactText, q.completedWork, c.fields.completedWork)
      ensures ConfirmedText(t, q.redactText, q.pendingWork, c.fields.pendingWork)
      ensures ConfirmedText(t, q.redactText, q.risks, c.fields.risks)
      ensures ConfirmedText(t, q.redactText, q.nextAction, c.fields.nextAction)
      ensures q.validation.None? ==> c.fields.validation.value == []
      ensures q.validation.Some? ==> |c.fields.validation.value| == 1
                                     && ConfirmedValidation(t, q.redactText, q.validation.value,
                                                            c.fields.validation.value[0])
    {
      hide Sanitized, FieldsCleaned, CapturedRepository, ConfirmedText, ConfirmedValidation, Setting, Expiry,
           ParseRetention;
      FieldsExactly(t, q.redactText, RequestedFields(q), c.fields);
      SettingExactly(t, policy, RepositoryFirst);
      ExpiryExactly(t, now, c.retention);
      assert q.validation.Some? ==> RequestedFields(q).validation.value[0] == q.validation.value;
    }

    /** What was observed is labelled so, and complete unless it is missing. */
    lemma ObservedExactly(q: CaptureRequest, found: Inventory, r: RepositoryState)
      requires CapturedRepository(t, q, found, r)
      ensures r.branch.value == Sanitized(found.branch, t.home, q.redactText, t.fold)
      ensures ListRedacted(t, found.staged, r.staged.value, Normalized(t, q.redactPaths))
              && ListRedacted(t, found.modified, r.modified.value, Normalized(t, q.redactPaths))
              && ListRedacted(t, found.untracked, r.untracked.value, Normalized(t, q.redactPaths))
      ensures r.branch.provenance == r.head.provenance == r.upstream.provenance == r.staged.provenance
              == r.modified.provenance == r.untracked.provenance == r.diff.provenance == LocalObserved
      ensures r.staged.completeness == r.modified.completeness == r.untracked.completeness
              == r.diff.completeness == Complete
      ensures r.head.completeness == (if found.head != "" then Complete else UnknownCompleteness)
      ensures r.branch.completeness == (if r.branch.value != "" then Complete else UnknownCompleteness)
      ensures r.upstream.completeness == (if found.upstream.Some? then Complete else UnknownCompleteness)
      ensures r.configuredCommands.value == []
              ==> r.configuredCommands.provenance == UnknownProvenance
                  && r.configuredCommands.completeness == UnknownCompleteness
      ensures r.configuredCommands.value != []
              ==> r.configuredCommands.provenance == UserConfirmed && r.configuredCommands.completeness == Complete
    {
      hide Sanitized, ListRedacted;
    }

    /** The commands inspection found come first, as they were found; the requested ones follow,
        sanitized. */
    lemma CommandsExactly(q: CaptureRequest, found: Inventory, r: RepositoryState)
      requires CapturedRepository(t, q, found, r)
      ensures |r.configuredCommands.value| == |found.configuredCommands| + |q.configuredCommands|
              && r.configuredCommands.value[..|found.configuredCommands|] == found.configuredCommands
      ensures forall i | 0 <= i < |q.configuredCommands| ::
                r.configuredCommands.value[|found.configuredCommands| + i]
                == Sanitized(q.configuredCommands[i], t.home, q.redactText, t.fold)
    {
      hide Sanitized, ListRedacted;
    }

    /** A capture request is valid when it names a path and none of its texts is refused. */
    lemma ValidCaptureExactly(q: CaptureRequest)
      ensures !InvalidCapture(t, q) <==>
                && !t.blank(q.path) && !InvalidRedactions(t, q.redactPaths, q.redactText)
                && !InvalidText(q.alias) && !InvalidText(q.goal) && !InvalidText(q.completedWork)
                && !InvalidText(q.pendingWork) && !InvalidText(q.risks) && !InvalidText(q.nextAction)
                && (forall c | c in q.configuredCommands :: !InvalidText(c))
                && (q.validation.Some? ==>
                      && !t.blank(q.validation.value.command)
                      && !InvalidText(q.validation.value.command) && !InvalidText(q.validation.value.source)
                      && q.validation.value.freshness in {"", "fresh", "stale", "unknown"})
    {
      hide InvalidText, InvalidRedactions;
      var texts := [q.alias, q.goal, q.completedWork, q.pendingWork, q.risks, q.nextAction];
      assert texts[0] == q.alias && texts[1] == q.goal && texts[2] == q.completedWork && texts[3] == q.pendingWork
             && texts[4] == q.risks && texts[5] == q.nextAction;
      assert forall v :: v in texts + q.configuredCommands <==> v in texts || v in q.configuredCommands;
    }

    /** A capture that the service has no reason of its own to refuse. */
    ghost predicate Capturable(q: CaptureRequest, id: string, project: Project, found: Inventory, policy: Policy,
                               now: Time) {
      && !InvalidCapture(t, q) && FoundInside(t, found)
      && Setting(t, policy, RepositoryFirst).Ok? && Expiry(t, now, Setting(t, policy, RepositoryFirst).value).Ok?
      && forall c | CapturedFrom(q, id, project, found, policy, now, c) :: Stampable(wire, c)
    }

    /** The fields of a valid request are valid: sanitizing them cannot fail. */
    static lemma RequestedFieldsValid(t: Tools, q: CaptureRequest)
      requires !InvalidCapture(t, q)
      ensures !InvalidFields(t, RequestedFields(q))
    {
    }

    /** Captures a new draft. The resolved project, the inspection and the random identifier come from
        outside; the identifier is new to the store. */
    method Capture(q: CaptureRequest, id: Option<string>, project: Result<Project, Error>,
                   inspected: Result<Inventory, Error>,
                   now: Time)
      returns (r: Result<Checkpoint, Error>)
      requires Valid() && (id.Some? ==> id.value !in store.records)
      modifies store
      ensures Valid() && old(store.history) <= store.history
      ensures r.Err? ==> Launched(old(store.records), store.records)
      ensures r.Ok? ==> id.Some? && project.Ok? && inspected.Ok? && !InvalidCapture(t, q)
      ensures r.Ok? ==> store.records.Keys == old(store.records).Keys + {id.value}
                        && forall k | k in old(store.records) :: LaunchMoved(old(store.records)[k], store.records[k])
      ensures r.Ok? ==> Current(wire, store.records[id.value]) == Some(r.value)
                        && r.value.sizeBytes == |store.records[id.value].metadata| <= MAX_CHECKPOINT_BYTES
      ensures r.Ok? ==> CapturedFrom(q, id.value, project.value, inspected.value,
                                     store.policyAt(old(store.calls)), now, r.value)
                        && wire.Revision(r.value) == Some(r.value.revision)
      ensures r.Err? && id.Some? && project.Ok? && inspected.Ok?
              ==> !Capturable(q, id.value, project.value, inspected.value, store.policyAt(old(store.calls)), now)
                  || store.fails(old(store.calls)) || store.fails(old(store.calls) + 1)
    {
      hide Run, InvalidCapture, CapturedRepository, FieldsCleaned, InvalidFields, Clean, Expiry, Sanitized,
           FoundInside, Stampable, ReplacedInTurn, CaseSensitive, Steps, Resists, Contains;
      ghost var s := store.records;
      LaunchedTrivially(s);
      if InvalidCapture(t, q) { return Err(Invalid); }
      if project.Err? { return Err(project.error); }
      var alias := SanitizeText(project.value.alias, t.home, q.redactText, t.fold);
      var basename := SanitizeText(project.value.basename, t.home, q.redactText, t.fold);
      CleanIsSanitized(t, q.redactText, project.value.alias);
      CleanIsSanitized(t, q.redactText, project.value.basename);
      if inspected.Err? { return Err(inspected.error); }
      var repository := CaptureRepository(q, inspected.value);
      if repository.None? { return Err(Invalid); }
      var policy := store.CheckpointRetention();
      if policy.Err? { return Err(policy.error); }
      var setting := Setting(t, policy.value, RepositoryFirst);
      if setting.Err? { return Err(setting.error); }
      var expiresAt := Expiry(t, now, setting.value);
      if expiresAt.Err? { return Err(expiresAt.error); }
      if id.None? { return Err(Invalid); }
      RequestedFieldsValid(t, q);
      var fields := SanitizeFields(t, q.redactText, RequestedFields(q));
      var c := Checkpoint(id.value, Draft, Project(project.value.id, alias, basename), repository.value, fields.value,
                          RepositoryFirst, setting.value, now, expiresAt.value, 0, "");
      r := SaveNew(c);
    }

    method SaveNew(c: Checkpoint) returns (r: Result<Checkpoint, Error>)
      requires Valid() && c.id !in store.records && c.status == Draft && c.retention != ""
      modifies store
      ensures Valid() && old(store.history) <= store.history
      ensures r.Err? ==> !Stampable(wire, c) || store.fails(old(store.calls))
      ensures r.Err? ==> Launched(old(store.records), store.records)
      ensures r.Ok? ==> store.records.Keys == old(store.records).Keys + {c.id}
                        && forall k | k in old(store.records) :: LaunchMoved(old(store.records)[k], store.records[k])
      ensures r.Ok? ==> Current(wire, store.records[c.id]) == Some(r.value)
                        && r.value == c.(revision := r.value.revision, sizeBytes := r.value.sizeBytes)
                        && wire.Revision(r.value) == Some(r.value.revision)
                        && r.value.sizeBytes == |store.records[c.id].metadata| <= MAX_CHECKPOINT_BYTES
    {
      hide Run, Authentic, Stampable;
      ghost var s := store.records;
      LaunchedTrivially(s);
      var prepared := PrepareCheckpoint(wire, c);
      StampWorks(wire, c, prepared);
      if prepared.None? { return Err(Invalid); }
      var d, metadata := prepared.value.0, prepared.value.1;
      if d.sizeBytes > MAX_CHECKPOINT_BYTES { return Err(Oversize); }
      SameRevision(wire, c, d);
      EncodedIsAuthentic(wire, d, metadata);
      ReachedIsLaunched(store, s);
      var error := store.SaveCheckpoint(RecordOf(wire, d, metadata), None, "");
      if error.Some? { return Err(error.value); }
      return Ok(d);
    }
  }
}
