/** Sequences of checkpoint service calls, with the launch side moving rows before every store
    call: what no sequence of them does to an expired or a launching checkpoint. */
module CheckpointRuns {
  import opened Wrappers
  import opened Checkpoints
  import opened CheckpointStores
  import opened CheckpointServices

  datatype Call =
    | ShowCall(id: string, now: Time)
    | EditCall(id: string, request: EditRequest, now: Time)
    | ApproveCall(id: string, revision: string, now: Time)
    | PreviewAssistedCall(id: string, revision: string, request: EditRequest, now: Time)
    | ApproveAssistedCall(id: string, revision: string, previewRevision: string, request: EditRequest, now: Time)
    | PurgeCall(id: string, revision: string, now: Time)
    | HandoffCall(id: string, revision: string, targetProfile: string, now: Time,
                  launch: Result<SourceLaunch, Error>, location: Result<string, Error>, inspected: bool)
    | CaptureCall(capture: CaptureRequest, newId: Option<string>, project: Result<Project, Error>,
                  inventory: Result<Inventory, Error>, now: Time)

  /** The identifier a call may add. */
  ghost function Added(call: Call): set<string> {
    if call.CaptureCall? && call.newId.Some? then {call.newId.value} else {}
  }

  /** Identifiers of captures are random: none is in use or comes twice. */
  ghost predicate NewIds(calls: seq<Call>, used: set<string>) {
    forall i | 0 <= i < |calls| :: Added(calls[i]) !! used + AddedBy(calls[..i])
  }

  ghost function AddedBy(calls: seq<Call>): set<string> {
    if calls == [] then {} else AddedBy(calls[..|calls| - 1]) + Added(calls[|calls| - 1])
  }

  /** Every expired row that is still there is the row it was. */
  ghost predicate ExpiredKept(s: Records, t: Records) {
    forall id | id in s && id in t && s[id].status == Expired :: t[id] == s[id]
  }

  lemma ScrubKeepsExpired(wire: Wire, s: Records, t: Records, id: string, now: Time)
    requires OnlyScrubs(wire, s, t, id, now)
    ensures ExpiredKept(s, t) && t.Keys == s.Keys
  {
  }

  /** A rewritten row was open when it was loaded, so it had not expired. */
  lemma WriteKeepsExpired(s: Records, loaded: Records, t: Records, id: string)
    requires Launched(s, loaded) && LoadedOpen(loaded, id) && Service.OnlyAt(s, t, id)
    ensures ExpiredKept(s, t) && t.Keys == s.Keys
  {
  }

  lemma MoveKeepsExpired(s: Records, t: Records)
    requires forall id | id in s && id in t :: LaunchMoved(s[id], t[id])
    ensures ExpiredKept(s, t)
  {
  }

  /** One call: whatever it is and however it ends, expired rows stay as they are until purged. */
  method Perform(service: Service, call: Call)
    requires service.Valid() && Added(call) !! service.store.records.Keys
    modifies service.store
    ensures service.Valid() && old(service.store.history) <= service.store.history
    ensures ExpiredKept(old(service.store.records), service.store.records)
    ensures service.store.records.Keys <= old(service.store.records).Keys + Added(call)
  {
    hide Run, Launched, OnlyScrubs, Service.OnlyAt, LoadedOpen, ExpiredKept;
    ghost var wire, s, loaded := service.wire, service.store.records, service.store.Reached();
    Service.ReachedIsLaunched(service.store, s);
    match call {
      case ShowCall(id, now) =>
        var _ := service.Show(id, now);
        ScrubKeepsExpired(wire, s, service.store.records, id, now);
      case PurgeCall(id, revision, now) =>
        var error := service.Purge(id, revision, now);
        if error.Some? {
          ScrubKeepsExpired(wire, s, service.store.records, id, now);
        } else {
          MoveKeepsExpired(s, service.store.records);
        }
      case HandoffCall(id, revision, targetProfile, now, launch, location, inspected) =>
        var _ := service.PrepareHandoff(id, revision, targetProfile, now, launch, location, inspected);
        LaunchedIsScrubless(wire, s, service.store.records, id, now);
        ScrubKeepsExpired(wire, s, service.store.records, id, now);
      case CaptureCall(request, newId, project, inventory, now) =>
        var r := service.Capture(request, newId, project, inventory, now);
        if r.Err? {
          LaunchedIsScrubless(wire, s, service.store.records, "", now);
          ScrubKeepsExpired(wire, s, service.store.records, "", now);
        } else {
          MoveKeepsExpired(s, service.store.records);
        }
      case _ =>
        var r := Write(service, call);
        if r.Err? {
          ScrubKeepsExpired(wire, s, service.store.records, call.id, call.now);
        } else {
          WriteKeepsExpired(s, loaded, service.store.records, call.id);
        }
    }
  }

  predicate Writes(call: Call) {
    call.EditCall? || call.ApproveCall? || call.PreviewAssistedCall? || call.ApproveAssistedCall?
  }

  /** The calls that may rewrite a row. */
  method Write(service: Service, call: Call) returns (r: Result<Checkpoint, Error>)
    requires service.Valid() && Writes(call)
    modifies service.store
    ensures service.Valid() && old(service.store.history) <= service.store.history
    ensures r.Err? ==> OnlyScrubs(service.wire, old(service.store.records), service.store.records, call.id, call.now)
    ensures r.Ok? ==> LoadedOpen(old(service.store.Reached()), call.id)
                      && Service.OnlyAt(old(service.store.records), service.store.records, call.id)
  {
    hide Run, Launched, OnlyScrubs, LoadedOpen, Service.OnlyAt, Spared, Current, EditedTo, TextsLack, MustVanish;
    match call {
      case EditCall(id, request, now) => r := service.Edit(id, request, now);
      case ApproveCall(id, revision, now) => r := service.Approve(id, revision, now);
      case ApproveAssistedCall(id, revision, previewRevision, request, now) =>
        r := service.ApproveAssisted(id, revision, previewRevision, request, now);
      case PreviewAssistedCall(id, revision, request, now) =>
        ghost var s := service.store.records;
        r := service.PreviewAssisted(id, revision, request, now);
        if r.Ok? { LaunchedIsOnlyAt(s, service.store.records, id); }
      case _ =>
    }
  }

  lemma LaunchedIsOnlyAt(s: Records, t: Records, id: string)
    requires Launched(s, t)
    ensures Service.OnlyAt(s, t, id)
  {
  }

  /** Any sequence of calls, with the launch side at work in between. An expired row that is still
      there at the end is the row it was, and holds nothing. In the history of the rows, which the
      calls only extend, a row once expired is scrubbed and unchanged until it is purged, and a
      launching row is next changed by the launch side alone. */
  method Serve(service: Service, calls: seq<Call>)
    requires service.Valid() && NewIds(calls, service.store.records.Keys)
    modifies service.store
    ensures service.Valid() && old(service.store.history) <= service.store.history
    ensures ExpiredKept(old(service.store.records), service.store.records)
    ensures forall id | id in service.store.records && service.store.records[id].status == Expired ::
              Scrubbed(service.wire, service.store.records[id])
    ensures var h := service.store.history;
            && (forall id, i, j | 0 <= i <= j < |h| && ExpiredThrough(h, id, i, j) ::
                  h[j][id] == h[i][id] && Scrubbed(service.wire, h[j][id]))
            && (forall id, i | 0 <= i < |h| - 1 && id in h[i] && h[i][id].status == Launching ::
                  id in h[i + 1] && LaunchMoved(h[i][id], h[i + 1][id]))
    ensures service.store.records.Keys <= old(service.store.records).Keys + AddedBy(calls)
  {
    hide Run, ExpiredKept, Scrubbed, LaunchMoved, Launched;
    ghost var s := service.store.records;
    ExpiredKeptNow(s);
    for n := 0 to |calls|
      invariant service.Valid() && old(service.store.history) <= service.store.history
      invariant ExpiredKept(s, service.store.records)
      invariant service.store.records.Keys <= s.Keys + AddedBy(calls[..n])
    {
      assert calls[..n + 1][..n] == calls[..n];
      ghost var m := service.store.records;
      assert Added(calls[n]) !! s.Keys + AddedBy(calls[..n]);
      Perform(service, calls[n]);
      ExpiredKeptOn(s, m, service.store.records, Added(calls[n]));
    }
    assert calls[..|calls|] == calls;
    ExpiredInHistory(service.wire, service.store.history, service.store.records);
    LaunchingInHistory(service.wire, service.store.history);
  }

  /** From i to j the row is there, and at i it is expired. */
  ghost predicate ExpiredThrough(h: seq<Records>, id: string, i: nat, j: nat)
    requires i <= j < |h|
  {
    (forall k | i <= k <= j :: id in h[k]) && h[i][id].status == Expired
  }

  lemma ExpiredKeptNow(s: Records)
    ensures ExpiredKept(s, s)
  {
  }

  lemma ExpiredKeptOn(s: Records, m: Records, t: Records, added: set<string>)
    requires ExpiredKept(s, m) && ExpiredKept(m, t) && t.Keys <= m.Keys + added && added !! s.Keys
    ensures ExpiredKept(s, t)
  {
  }

  lemma RunNotEmpty(wire: Wire, h: seq<Records>)
    requires Run(wire, h)
    ensures h != []
  {
  }

  lemma LaunchingInHistory(wire: Wire, h: seq<Records>)
    requires Run(wire, h)
    ensures forall id, i | 0 <= i < |h| - 1 && id in h[i] && h[i][id].status == Launching ::
              id in h[i + 1] && LaunchMoved(h[i][id], h[i + 1][id])
  {
  }

  lemma ExpiredInHistory(wire: Wire, h: seq<Records>, last: Records)
    requires Run(wire, h) && last == h[|h| - 1]
    ensures forall id | id in last && last[id].status == Expired :: Scrubbed(wire, last[id])
    ensures forall id, i, j | 0 <= i <= j < |h| && ExpiredThrough(h, id, i, j) ::
              h[j][id] == h[i][id] && Scrubbed(wire, h[j][id])
  {
    hide Run, Scrubbed;
    RunNotEmpty(wire, h);
    forall id, i, j | 0 <= i <= j < |h| && ExpiredThrough(h, id, i, j)
      ensures h[j][id] == h[i][id] && Scrubbed(wire, h[j][id])
    {
      ExpiredForever(wire, h, id, i, j);
    }
    forall id | id in last && last[id].status == Expired ensures Scrubbed(wire, last[id]) {
      assert ExpiredThrough(h, id, |h| - 1, |h| - 1);
    }
  }

  // ---- Approving what was reviewed ----------------------------------------------------------------

  /** Shows a checkpoint, lets any calls and the launch side intervene, then approves the revision
      that was shown: an approval is of the content that was shown, unless two contents collide. */
  method ReviewThenApprove(service: Service, id: string, reviewedAt: Time, between: seq<Call>, approvedAt: Time)
    returns (shown: Result<Checkpoint, Error>, r: Result<Checkpoint, Error>)
    requires service.Valid() && NewIds(between, service.store.records.Keys)
    modifies service.store
    ensures service.Valid() && old(service.store.history) <= service.store.history
    ensures shown.Ok? && shown.value.status != Expired && r.Ok?
            ==> r.value == shown.value.(status := Approved, sizeBytes := r.value.sizeBytes)
                || ContentsCollide(service.wire, shown.value, r.value)
  {
    hide Run, ExpiredKept, service.Showable, service.Approvable, ContentsCollide, Spared, Scrubbed, NewIds, AddedBy;
    r := Err(Invalid);
    shown := service.Show(id, reviewedAt);
    if shown.Err? || shown.value.status == Expired { return; }
    ghost var c := shown.value;
    ShownRevision(service.wire, service.store.records, id, c);
    Serve(service, between);
    r := service.Approve(id, shown.value.revision, approvedAt);
    if r.Ok? { RevisionIdentifiesContent(service.wire, c, r.value); }
  }

  lemma ShownRevision(wire: Wire, s: Records, id: string, c: Checkpoint)
    requires id in s && Sound(wire, s[id]) && Current(wire, s[id]) == Some(c) && c.status != Expired
    ensures wire.Revision(c) == Some(c.revision)
  {
  }

  /** The same for an assisted approval: whatever became of the draft, the policy or the request
      since the preview, an approval under its revision is of the content that was previewed. */
  method PreviewThenApproveAssisted(service: Service, id: string, revision: string, previewed: EditRequest,
                                    previewedAt: Time,
                                    between: seq<Call>, request: EditRequest, approvedAt: Time)
    returns (preview: Result<Checkpoint, Error>, r: Result<Checkpoint, Error>)
    requires service.Valid() && NewIds(between, service.store.records.Keys)
    modifies service.store
    ensures service.Valid() && old(service.store.history) <= service.store.history
    ensures preview.Ok? && r.Ok?
            ==> r.value == preview.value.(status := Approved, sizeBytes := r.value.sizeBytes)
                || ContentsCollide(service.wire, preview.value, r.value)
  {
    hide Run, ExpiredKept, service.Assistable, service.AssistedFrom, ContentsCollide, Spared, Scrubbed, NewIds, AddedBy,
         Wire.Lawful, Wire.Revision, Sound, LoadedOpen, OnlyScrubs, Service.OnlyAt, Service.Foreseen, Store.Quiet,
         Current, Past;
    r := Err(Invalid);
    preview := service.PreviewAssisted(id, revision, previewed, previewedAt);
    if preview.Err? { return; }
    Serve(service, between);
    r := service.ApproveAssisted(id, revision, preview.value.revision, request, approvedAt);
    if r.Ok? { RevisionIdentifiesContent(service.wire, preview.value, r.value); }
  }
}
