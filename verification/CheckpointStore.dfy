/** The checkpoint store: compare-and-set rows, shared with the launch side, and what every state
    of every run of the service satisfies. */
module CheckpointStores {
  import opened Wrappers
  import opened Checkpoints

  datatype Record = Record(
    id: string, projectId: string, status: Status, metadata: string,
    goal: Option<string>, completedWork: Option<string>, pendingWork: Option<string>,
    validation: Option<string>, risks: Option<string>, nextAction: Option<string>,
    createdAt: Time, expiresAt: Option<Time>)

  type Records = map<string, Record>

  // ---- What a row says ----------------------------------------------------------------------------

  /** The checkpoint a row stands for: the status column overrides the encoded one. */
  function Current(wire: Wire, r: Record): Option<Checkpoint> {
    match wire.decode(r.metadata)
    case Some(c) => Some(c.(status := r.status))
    case None => None
  }

  predicate NoSensitiveColumns(r: Record) {
    && r.goal.None? && r.completedWork.None? && r.pendingWork.None?
    && r.validation.None? && r.risks.None? && r.nextAction.None?
  }

  /** A row whose encoded revision is the digest of its encoded content. */
  ghost predicate Authentic(wire: Wire, r: Record) {
    && wire.decode(r.metadata).Some?
    && var c := wire.decode(r.metadata).value;
       && c.id == r.id && c.project.id == r.projectId
       && c.createdAt == r.createdAt && c.expiresAt == r.expiresAt
       && wire.Revision(c) == Some(c.revision)
       && c.sizeBytes == |r.metadata| <= MAX_CHECKPOINT_BYTES
       && c.retention != ""
  }

  /** A row that holds nothing of an expired checkpoint but its identity, origin and times. */
  ghost predicate Scrubbed(wire: Wire, r: Record) {
    && r.status == Expired && NoSensitiveColumns(r)
    && wire.decode(r.metadata).Some?
    && var c := wire.decode(r.metadata).value;
       && c == Blanked(FormOf(c, r.projectId))
       && wire.encodeExpired(FormOf(c, r.projectId)) == Some(r.metadata)
       && c.id == r.id && c.createdAt == r.createdAt && c.expiresAt == r.expiresAt
       && c.retention != ""
  }

  ghost predicate Sound(wire: Wire, r: Record) {
    if r.status == Expired then Scrubbed(wire, r) else Authentic(wire, r)
  }

  ghost predicate AllSound(wire: Wire, s: Records) {
    forall id | id in s :: s[id].id == id && Sound(wire, s[id])
  }

  // ---- Steps --------------------------------------------------------------------------------------

  /** The launch side moves approved to launching, launching to completed or back to approved, and
        touches nothing but the status. */
  predicate LaunchMoved(a: Record, b: Record) {
    && b == a.(status := b.status)
    && (b.status == a.status
        || (a.status in {Approved, Launching} && b.status in {Approved, Launching, Completed}))
  }

  ghost predicate Launched(s: Records, t: Records) {
    s.Keys == t.Keys && forall id | id in s :: LaunchMoved(s[id], t[id])
  }

  /** b replaces a row that is not launching by its scrubbed form under the same revision. */
  ghost predicate Scrubs(wire: Wire, a: Record, b: Record) {
    && a.status != Launching && a.status != Expired
    && Scrubbed(wire, b) && b.id == a.id
    && wire.decode(a.metadata).Some?
    && wire.decode(b.metadata).value.revision == wire.decode(a.metadata).value.revision
  }

  /** b replaces a draft or approved row by another whose revision is the digest of its content. */
  ghost predicate Rewrites(wire: Wire, a: Record, b: Record) {
    && a.status in {Draft, Approved} && b.status in {Draft, Approved}
    && Authentic(wire, b) && b.id == a.id
  }

  /** What one store transaction of the service or the launch side may do. */
  ghost predicate Step(wire: Wire, s: Records, t: Records) {
    || Launched(s, t)
    || (exists b: Record :: t == s[b.id := b] && PutAllowed(wire, s, b))
    || (exists id :: id in s && s[id].status != Launching && t == s - {id})
  }

  ghost predicate PutAllowed(wire: Wire, s: Records, b: Record) {
    if b.id in s then Scrubs(wire, s[b.id], b) || Rewrites(wire, s[b.id], b)
    else b.status == Draft && Authentic(wire, b)
  }

  /** A run: every state follows from the one before by a step. */
  ghost predicate Run(wire: Wire, h: seq<Records>) {
    && h != []
    && AllSound(wire, h[0])
    && forall i | 0 <= i < |h| - 1 :: Step(wire, h[i], h[i + 1])
  }

  // ---- Properties of every run --------------------------------------------------------------------

  lemma StepSound(wire: Wire, s: Records, t: Records)
    requires AllSound(wire, s) && Step(wire, s, t)
    ensures AllSound(wire, t)
  {
    hide Authentic, Scrubbed;
    forall id | id in t ensures t[id].id == id && Sound(wire, t[id]) {
      if Launched(s, t) {
        assert LaunchMoved(s[id], t[id]);
        MoveKeepsAuthentic(wire, s[id], t[id]);
      } else if b: Record :| t == s[b.id := b] && PutAllowed(wire, s, b) {
        PutIsSound(wire, s, b);
      }
    }
  }

  lemma MoveKeepsAuthentic(wire: Wire, a: Record, b: Record)
    requires LaunchMoved(a, b) && Sound(wire, a)
    ensures Sound(wire, b)
  {
  }

  lemma PutIsSound(wire: Wire, s: Records, b: Record)
    requires PutAllowed(wire, s, b)
    ensures Sound(wire, b)
  {
  }

  /** In every state of every run, the revision of an unexpired checkpoint is the digest of its
      content, and an expired one is scrubbed. */
  lemma {:induction false} RunSound(wire: Wire, h: seq<Records>, i: nat)
    requires Run(wire, h) && i < |h|
    ensures AllSound(wire, h[i])
  {
    hide AllSound, Step;
    if i > 0 {
      RunSound(wire, h, i - 1);
      assert Step(wire, h[i - 1], h[i - 1 + 1]);
      StepSound(wire, h[i - 1], h[i]);
    }
  }

  /** Expired means scrubbed for good: until it is purged, no later step changes the row. */
  lemma {:induction false} ExpiredForever(wire: Wire, h: seq<Records>, id: string, i: nat, j: nat)
    requires Run(wire, h) && i <= j < |h|
    requires forall k | i <= k <= j :: id in h[k]
    requires h[i][id].status == Expired
    ensures h[j][id] == h[i][id] && Scrubbed(wire, h[j][id])
  {
    hide Scrubbed, Authentic;
    RunSound(wire, h, i);
    if i < j {
      ExpiredForever(wire, h, id, i, j - 1);
      assert Step(wire, h[j - 1], h[j - 1 + 1]);
      assert id in h[j];
      ExpiredStep(wire, h[j - 1], h[j], id);
    }
  }

  lemma ExpiredStep(wire: Wire, s: Records, t: Records, id: string)
    requires Step(wire, s, t) && id in s && id in t && s[id].status == Expired
    ensures t[id] == s[id]
  {
  }

  // ---- The store ----------------------------------------------------------------------------------

  /** The row passes the comparison of a conditional save: no expectation, or exactly the expected
      status and revision. Half an expectation is refused. */
  predicate CasPasses(wire: Wire, s: Records, id: string, expectedStatus: Option<Status>, expectedRevision: string) {
    if expectedStatus.None? && expectedRevision == "" then true
    else
      && expectedStatus.Some? && expectedRevision != ""
      && id in s && s[id].status == expectedStatus.value
      && wire.decode(s[id].metadata).Some? && wire.decode(s[id].metadata).value.revision == expectedRevision
  }

  /** A save that is a step of a run from every state in which its comparison passes. */
  ghost predicate Permitted(wire: Wire, b: Record, expectedStatus: Option<Status>, expectedRevision: string) {
    match expectedStatus
    case None => expectedRevision == "" && b.status == Draft && Authentic(wire, b)
    case Some(status) =>
      && expectedRevision != ""
      && ((status !in {Launching, Expired} && Scrubbed(wire, b)
           && wire.decode(b.metadata).value.revision == expectedRevision)
          || (status in {Draft, Approved} && b.status in {Draft, Approved} && Authentic(wire, b)))
  }

  lemma PermittedSteps(wire: Wire, s: Records, b: Record, expectedStatus: Option<Status>, expectedRevision: string)
    requires AllSound(wire, s)
    requires Permitted(wire, b, expectedStatus, expectedRevision)
    requires CasPasses(wire, s, b.id, expectedStatus, expectedRevision)
    requires expectedStatus.None? ==> b.id !in s
    ensures Step(wire, s, s[b.id := b])
  {
  }

  class Store {
    const wire: Wire
    var records: Records
    /** Every state the rows have been in, launch-side steps included. */
    ghost var history: seq<Records>
    var calls: nat
    const fails: nat -> bool
    /** What the launch side has done to the rows when the n-th call reaches them. */
    const launcher: (nat, Records) -> Records
    /** The retention policy in force at the n-th call. */
    const policyAt: nat -> Policy
    /** Whether a pending or running launch still refers to the checkpoint at the n-th call. */
    const busy: (nat, string) -> bool

    ghost predicate Valid()
      reads this
    {
      && (forall n, s :: Launched(s, launcher(n, s)))
      && Run(wire, history)
      && history[|history| - 1] == records
    }

    constructor (wire: Wire, fails: nat -> bool, launcher: (nat, Records) -> Records,
                 policyAt: nat -> Policy, busy: (nat, string) -> bool)
      requires forall n, s :: Launched(s, launcher(n, s))
      ensures Valid() && records == map[] && history == [map[]]
      ensures this.wire == wire
    {
      this.wire, this.fails, this.launcher, this.policyAt, this.busy := wire, fails, launcher, policyAt, busy;
      records, history, calls := map[], [map[]], 0;
    }

    /** No call fails from one call count to another, and the launch side leaves the row alone. */
    ghost predicate Quiet(id: string, from: nat, to: nat) {
      forall n | from <= n < to :: !fails(n) && Untouched(id, n)
    }

    ghost predicate Untouched(id: string, n: nat) {
      forall s: Records | id in s :: id in launcher(n, s) && launcher(n, s)[id] == s[id]
    }

    /** The rows as the next call finds them. */
    function Reached(): Records
      reads this
    {
      launcher(calls, records)
    }

    static lemma RunAppend(wire: Wire, h: seq<Records>, t: Records)
      requires Run(wire, h) && Step(wire, h[|h| - 1], t)
      ensures Run(wire, h + [t])
    {
      hide Step, AllSound;
    }

    static lemma LastSound(wire: Wire, h: seq<Records>)
      requires Run(wire, h)
      ensures AllSound(wire, h[|h| - 1])
    {
      RunSound(wire, h, |h| - 1);
    }

    /** The launch side runs up to the next call. */
    method Advance()
      requires Valid()
      modifies this
      ensures Valid() && records == old(Reached()) && calls == old(calls) + 1
      ensures history == old(history) + [records] && AllSound(wire, records)
    {
      hide Launched, AllSound, Run;
      RunAdvance(wire, history, launcher(calls, records));
      records := launcher(calls, records);
      history := history + [records];
      calls := calls + 1;
    }

    static lemma RunAdvance(wire: Wire, h: seq<Records>, t: Records)
      requires Run(wire, h) && Launched(h[|h| - 1], t)
      ensures Run(wire, h + [t]) && AllSound(wire, t)
    {
      RunAppend(wire, h, t);
      LastSound(wire, h + [t]);
    }

    method LoadCheckpoint(id: string) returns (r: Result<Record, Error>)
      requires Valid()
      modifies this
      ensures Valid() && records == old(Reached()) && calls == old(calls) + 1
      ensures history == old(history) + [records] && AllSound(wire, records)
      ensures r == if fails(old(calls)) then Err(StoreFailed)
                   else if id in records then Ok(records[id]) else Err(NotFound)
    {
      hide AllSound, Run;
      Advance();
      r := if fails(calls - 1) then Err(StoreFailed) else if id in records then Ok(records[id]) else Err(NotFound);
    }

    /** Writes the row if the expected status and revision are still the stored ones. Any row may be
        written; the rows stay a run of the service when the save is a permitted one. */
    method SaveCheckpoint(b: Record, expectedStatus: Option<Status>, expectedRevision: string)
      returns (error: Option<Error>)
      requires Valid()
      modifies this
      ensures error.Some?
              || (Permitted(wire, b, expectedStatus, expectedRevision)
                  && (expectedStatus.None? ==> b.id !in old(records)))
              ==> Valid()
      ensures calls == old(calls) + 1 && old(history) <= history
      ensures error.None? ==> CasPasses(wire, old(Reached()), b.id, expectedStatus, expectedRevision)
                              && records == old(Reached())[b.id := b]
      ensures error.None? && (expectedStatus.Some? || expectedRevision != "") ==>
                && expectedStatus.Some? && expectedRevision != "" && b.id in old(Reached())
                && var row := old(Reached())[b.id];
                   && row.status == expectedStatus.value
                   && wire.decode(row.metadata).Some? && wire.decode(row.metadata).value.revision == expectedRevision
      ensures error.Some? ==> records == old(Reached())
      ensures error == Some(RevisionChanged) ==>
                && b.id in old(Reached())
                && (wire.decode(old(Reached())[b.id].metadata).None?
                    || wire.decode(old(Reached())[b.id].metadata).value.revision != expectedRevision)
      ensures error.Some? ==> fails(old(calls))
                              || !CasPasses(wire, old(Reached()), b.id, expectedStatus, expectedRevision)
    {
      hide AllSound, Run, Permitted, Launched;
      KeysKept(launcher, calls, records);
      Advance();
      if fails(calls - 1) { return Some(StoreFailed); }
      if !(expectedStatus.None? && expectedRevision == "") {
        if expectedStatus.None? || expectedRevision == "" { return Some(Invalid); }
        if b.id !in records { return Some(NotFound); }
        if records[b.id].status != expectedStatus.value { return Some(NotReady); }
        var current := wire.decode(records[b.id].metadata);
        if current.None? || current.value.revision != expectedRevision { return Some(RevisionChanged); }
      }
      if Permitted(wire, b, expectedStatus, expectedRevision) && (expectedStatus.None? ==> b.id !in records) {
        PermittedSteps(wire, records, b, expectedStatus, expectedRevision);
        RunAppend(wire, history, records[b.id := b]);
      }
      records := records[b.id := b];
      history := history + [records];
      return None;
    }

    static lemma KeysKept(launcher: (nat, Records) -> Records, n: nat, s: Records)
      requires forall m, t :: Launched(t, launcher(m, t))
      ensures launcher(n, s).Keys == s.Keys
    {
    }

    /** Deletes one exact revision that is not launching and that no live launch refers to. */
    method PurgeCheckpoint(id: string, revision: string) returns (error: Option<Error>)
      requires Valid()
      modifies this
      ensures Valid() && calls == old(calls) + 1 && old(history) <= history
      ensures error.None? ==>
                && id in old(Reached()) && old(Reached())[id].status != Launching
                && wire.decode(old(Reached())[id].metadata).Some?
                && wire.decode(old(Reached())[id].metadata).value.revision == revision
                && !busy(old(calls), id)
                && records == old(Reached()) - {id}
      ensures error.Some? ==> records == old(Reached())
      ensures error.Some? ==>
                || fails(old(calls)) || busy(old(calls), id)
                || id !in records || records[id].status == Launching
                || wire.decode(records[id].metadata).None?
                || wire.decode(records[id].metadata).value.revision != revision
    {
      hide AllSound, Run, Launched;
      Advance();
      if fails(calls - 1) { return Some(StoreFailed); }
      if id !in records { return Some(NotFound); }
      if records[id].status == Launching { return Some(NotReady); }
      var current := wire.decode(records[id].metadata);
      if current.None? || current.value.revision != revision { return Some(RevisionChanged); }
      if busy(calls - 1, id) { return Some(NotReady); }
      RunAppend(wire, history, records - {id});
      records := records - {id};
      history := history + [records];
      return None;
    }

    method CheckpointRetention() returns (r: Result<Policy, Error>)
      requires Valid()
      modifies this`calls
      ensures Valid() && calls == old(calls) + 1
      ensures r == if fails(old(calls)) then Err(StoreFailed) else Ok(policyAt(old(calls)))
    {
      r := if fails(calls) then Err(StoreFailed) else Ok(policyAt(calls));
      calls := calls + 1;
    }
  }
}
