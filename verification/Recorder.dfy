/** The bounded in-memory diagnostic recorder: a window of a shared backing array, bounded by
    count, by encoded bytes and by age. */
module Diagnostics {
  import opened Wrappers

  const MAX_EVENT_BYTES := 2048
  const DEFAULT_MAX_EVENTS := 128
  const DEFAULT_MAX_ENCODED_BYTES := 50 * 1024 * 1024
  const DEFAULT_RETENTION := 14 * 24 * 3600 * 1_000_000_000
  const MAX_RECORDER_EVENTS := 4096
  const MAX_RECORDER_BYTES := 50 * 1024 * 1024
  const CLI_INTERNAL := "CF_CLI_INTERNAL"

  const SEVERITIES := {"info", "warning", "error"}
  const COMPONENTS := {
    "cli", "launch", "profile", "configpack", "diagnostics", "httpapi", "platform", "store", "vault"
  }
  const OPERATIONS := {
    "command", "resolve_paths", "discover_owner", "discover_codex", "profile_setup", "configuration_pack",
    "acquire_owner", "open_store", "integrity_check", "migration", "backup", "recovery_verify",
    "recovery_list", "recovery_restore", "vault", "http_bootstrap", "http_authorization", "http_session",
    "http_asset", "http_listen", "shutdown"
  }
  const STATES := {
    "failed", "invalid", "unavailable", "locked", "expired", "replayed", "contention", "rejected",
    "running", "stopped"
  }
  const HTTP_METHODS := {"GET", "HEAD", "POST", "PUT", "PATCH", "DELETE", "OPTIONS"}
  const VAULT_TIERS := {"dpapi", "keychain", "secret-service", "passphrase"}

  /** Nanoseconds; 0 stands for Go's zero time. */
  type Time = int
  const ZERO_TIME: Time := 0

  datatype Context = Context(
    operation: string, state: string, httpMethod: string, httpStatus: int, schemaVersion: int, vaultTier: string)

  datatype Event = Event(time: Time, severity: string, component: string, errorCode: string, context: Option<Context>)

  datatype Outcome = Accepted | Rejected

  /** What the recorder calls but does not decide: the error-code registry, and the length of an
      event's JSON encoding (None when it cannot be encoded). */
  datatype Wire = Wire(registered: string -> bool, size: Event -> Option<nat>)

  datatype Bounds = Bounds(maxEvents: nat, maxEncodedBytes: nat, maxEventBytes: nat, retention: nat)

  predicate AcceptableContext(c: Context) {
    && (c.operation == "" || c.operation in OPERATIONS)
    && (c.state == "" || c.state in STATES)
    && (c.httpMethod == "" || c.httpMethod in HTTP_METHODS)
    && (c.httpStatus == 0 || 100 <= c.httpStatus <= 599)
    && 0 <= c.schemaVersion <= 1_000_000
    && (c.vaultTier == "" || c.vaultTier in VAULT_TIERS)
  }

  predicate Acceptable(wire: Wire, e: Event): (ok: bool)
    ensures ok ==> wire.size(e).Some? && wire.size(e).value <= MAX_EVENT_BYTES
  {
    && e.time != ZERO_TIME
    && e.severity in SEVERITIES
    && e.component in COMPONENTS
    && wire.registered(e.errorCode)
    && (e.context.Some? ==> AcceptableContext(e.context.value))
    && wire.size(e).Some?
    && wire.size(e).value <= MAX_EVENT_BYTES
  }

  /** The event passes validation and both configured size limits. */
  predicate Admitted(bounds: Bounds, wire: Wire, e: Event) {
    && Acceptable(wire, e)
    && wire.size(e).value <= bounds.maxEventBytes
    && wire.size(e).value <= bounds.maxEncodedBytes
  }

  function CodeFor(wire: Wire, code: string, fallback: string): string {
    if wire.registered(code) then code
    else if wire.registered(fallback) then fallback
    else CLI_INTERNAL
  }

  /** The event RecordError builds: the registered code of an error, never its message. */
  function ErrorEvent(wire: Wire, component: string, operation: string, severity: string, code: string,
                      at: Time): Event {
    Event(at, severity, component, CodeFor(wire, code, CLI_INTERNAL),
          if operation == "" then None else Some(Context(operation, "", "", 0, 0, "")))
  }

  // ---- The simple model ---------------------------------------------------------------------

  function SizeOf(wire: Wire, e: Event): nat {
    if wire.size(e).Some? then wire.size(e).value else 0
  }

  function TotalSize(wire: Wire, s: seq<Event>): nat {
    if s == [] then 0 else TotalSize(wire, s[..|s| - 1]) + SizeOf(wire, s[|s| - 1])
  }

  /** The events not older than the cutoff, in their old order. */
  function Unexpired(s: seq<Event>, cutoff: Time): (r: seq<Event>)
    ensures |r| <= |s|
  {
    if s == [] then []
    else
      var last := s[|s| - 1];
      if last.time < cutoff then Unexpired(s[..|s| - 1], cutoff) else Unexpired(s[..|s| - 1], cutoff) + [last]
  }

  lemma {:induction false} UnexpiredMembers(s: seq<Event>, cutoff: Time)
    ensures forall e :: e in Unexpired(s, cutoff) <==> e in s && cutoff <= e.time
  {
    if s != [] {
      UnexpiredMembers(s[..|s| - 1], cutoff);
      assert s == s[..|s| - 1] + [s[|s| - 1]];
    }
  }

  lemma UnexpiredStep(wire: Wire, s: seq<Event>, i: nat, cutoff: Time)
    requires i < |s|
    ensures Unexpired(s[..i + 1], cutoff)
            == if s[i].time < cutoff then Unexpired(s[..i], cutoff) else Unexpired(s[..i], cutoff) + [s[i]]
    ensures TotalSize(wire, Unexpired(s[..i + 1], cutoff))
            == TotalSize(wire, Unexpired(s[..i], cutoff)) + if s[i].time < cutoff then 0 else SizeOf(wire, s[i])
  {
    assert s[..i + 1][..i] == s[..i];
    var kept := Unexpired(s[..i], cutoff);
    assert (kept + [s[i]])[..|kept|] == kept;
  }

  /** s leaves room for one more event of n encoded bytes. */
  predicate Fits(bounds: Bounds, wire: Wire, s: seq<Event>, n: nat) {
    |s| < bounds.maxEvents && TotalSize(wire, s) + n <= bounds.maxEncodedBytes
  }

  function Evicted(bounds: Bounds, wire: Wire, s: seq<Event>, n: nat): seq<Event> {
    if s == [] || Fits(bounds, wire, s, n) then s else Evicted(bounds, wire, s[1..], n)
  }

  /** Age is measured from the clock, or from the event when the clock is unset or behind it. */
  function Reference(e: Event, now: Time): Time {
    if now == ZERO_TIME || now < e.time then e.time else now
  }

  /** Retained events after recording an admitted event. */
  function Recorded(bounds: Bounds, wire: Wire, s: seq<Event>, e: Event, now: Time): seq<Event> {
    var cutoff := Reference(e, now) - bounds.retention;
    var kept := Unexpired(s, cutoff);
    if e.time < cutoff then kept else Evicted(bounds, wire, kept, SizeOf(wire, e)) + [e]
  }

  // ---- Properties of the model --------------------------------------------------------------

  lemma {:induction false} TotalSizeSplit(wire: Wire, a: seq<Event>, b: seq<Event>)
    ensures TotalSize(wire, a + b) == TotalSize(wire, a) + TotalSize(wire, b)
  {
    if b == [] {
      assert a + b == a;
    } else {
      assert (a + b)[..|a + b| - 1] == a + b[..|b| - 1];
      TotalSizeSplit(wire, a, b[..|b| - 1]);
    }
  }

  /** Filtering goes event by event and keeps the order. */
  lemma {:induction false} UnexpiredConcat(a: seq<Event>, b: seq<Event>, cutoff: Time)
    ensures Unexpired(a + b, cutoff) == Unexpired(a, cutoff) + Unexpired(b, cutoff)
  {
    if b == [] {
      assert a + b == a;
    } else {
      assert (a + b)[..|a + b| - 1] == a + b[..|b| - 1];
      UnexpiredConcat(a, b[..|b| - 1], cutoff);
    }
  }

  lemma UnexpiredOne(e: Event, cutoff: Time)
    ensures Unexpired([e], cutoff) == if e.time < cutoff then [] else [e]
  {
    assert [e][..0] == [];
  }

  lemma {:induction false} UnexpiredShrinks(wire: Wire, s: seq<Event>, cutoff: Time)
    ensures TotalSize(wire, Unexpired(s, cutoff)) <= TotalSize(wire, s)
  {
    if s != [] {
      var init, last := s[..|s| - 1], s[|s| - 1];
      UnexpiredShrinks(wire, init, cutoff);
      var kept := Unexpired(init, cutoff);
      assert (kept + [last])[..|kept|] == kept;
    }
  }

  /** Evictions are minimal and strictly oldest-inserted first: what remains is the longest
      suffix that leaves room for the new event. */
  lemma {:induction false} EvictionIsMinimal(bounds: Bounds, wire: Wire, s: seq<Event>, n: nat) returns (k: nat)
    requires bounds.maxEvents >= 1 && n <= bounds.maxEncodedBytes
    ensures k <= |s| && Evicted(bounds, wire, s, n) == s[k..]
    ensures Fits(bounds, wire, s[k..], n)
    ensures forall j | 0 <= j < k :: !Fits(bounds, wire, s[j..], n)
  {
    if s == [] || Fits(bounds, wire, s, n) {
      k := 0;
      assert s[0..] == s;
    } else {
      var k' := EvictionIsMinimal(bounds, wire, s[1..], n);
      k := k' + 1;
      assert s[1..][k'..] == s[k..];
      forall j | 0 <= j < k ensures !Fits(bounds, wire, s[j..], n) {
        if j == 0 { assert s[0..] == s; } else { assert s[1..][j - 1..] == s[j..]; }
      }
    }
  }

  datatype Call = RecordAt(event: Event, now: Time) | ReadAt(now: Time)

  /** Retained events after one call. */
  function After(bounds: Bounds, wire: Wire, s: seq<Event>, call: Call): seq<Event> {
    match call
    case RecordAt(e, now) => if Admitted(bounds, wire, e) then Recorded(bounds, wire, s, e, now) else s
    case ReadAt(now) => Unexpired(s, now - bounds.retention)
  }

  /** Retained events after a run of calls on a recorder that held s, under any clock. */
  function Run(bounds: Bounds, wire: Wire, s: seq<Event>, calls: seq<Call>): seq<Event> {
    if calls == [] then s
    else After(bounds, wire, Run(bounds, wire, s, calls[..|calls| - 1]), calls[|calls| - 1])
  }

  /** The admitted events of a run in call order. */
  function Submitted(bounds: Bounds, wire: Wire, calls: seq<Call>): seq<Event> {
    if calls == [] then []
    else
      var last := calls[|calls| - 1];
      Submitted(bounds, wire, calls[..|calls| - 1])
      + if last.RecordAt? && Admitted(bounds, wire, last.event) then [last.event] else []
  }

  ghost predicate Subsequence(a: seq<Event>, b: seq<Event>) {
    a == [] || (b != [] && (Subsequence(a, b[..|b| - 1])
                || (a[|a| - 1] == b[|b| - 1] && Subsequence(a[..|a| - 1], b[..|b| - 1]))))
  }

  lemma {:induction false} SubsequenceReflexive(a: seq<Event>)
    ensures Subsequence(a, a)
  {
    if a != [] { SubsequenceReflexive(a[..|a| - 1]); }
  }

  lemma {:induction false} SubsequenceTransitive(a: seq<Event>, b: seq<Event>, c: seq<Event>)
    requires Subsequence(a, b) && Subsequence(b, c)
    ensures Subsequence(a, c)
    decreases |a| + |b| + |c|
  {
    if a != [] && b != [] {
      if Subsequence(b, c[..|c| - 1]) {
        SubsequenceTransitive(a, b, c[..|c| - 1]);
      } else if Subsequence(a, b[..|b| - 1]) {
        SubsequenceTransitive(a, b[..|b| - 1], c[..|c| - 1]);
      } else {
        SubsequenceTransitive(a[..|a| - 1], b[..|b| - 1], c[..|c| - 1]);
      }
    }
  }

  lemma {:induction false} UnexpiredSubsequence(s: seq<Event>, cutoff: Time)
    ensures Subsequence(Unexpired(s, cutoff), s)
  {
    if s != [] {
      UnexpiredSubsequence(s[..|s| - 1], cutoff);
      var last, kept := s[|s| - 1], Unexpired(s[..|s| - 1], cutoff);
      assert (kept + [last])[..|kept|] == kept;
    }
  }

  lemma {:induction false} SuffixSubsequence(s: seq<Event>, k: nat)
    requires k <= |s|
    ensures Subsequence(s[k..], s)
  {
    if k < |s| {
      assert s[k..][..|s[k..]| - 1] == s[..|s| - 1][k..];
      SuffixSubsequence(s[..|s| - 1], k);
    }
  }

  /** Over every run of a new recorder: both bounds hold, only admitted events are retained, and they are retained
      in the order they were submitted. */
  lemma {:induction false} RunInvariant(bounds: Bounds, wire: Wire, calls: seq<Call>)
    requires bounds.maxEvents >= 1
    ensures |Run(bounds, wire, [], calls)| <= bounds.maxEvents
    ensures TotalSize(wire, Run(bounds, wire, [], calls)) <= bounds.maxEncodedBytes
    ensures Subsequence(Run(bounds, wire, [], calls), Submitted(bounds, wire, calls))
  {
    if calls != [] {
      var init, last := calls[..|calls| - 1], calls[|calls| - 1];
      RunInvariant(bounds, wire, init);
      var s := Run(bounds, wire, [], init);
      var submitted := Submitted(bounds, wire, init);
      match last
      case ReadAt(now) =>
        UnexpiredShrinks(wire, s, now - bounds.retention);
        UnexpiredSubsequence(s, now - bounds.retention);
        SubsequenceTransitive(Unexpired(s, now - bounds.retention), s, submitted);
        assert Submitted(bounds, wire, calls) == submitted;
      case RecordAt(e, now) =>
        if Admitted(bounds, wire, e) {
          RecordedInvariant(bounds, wire, s, e, now, submitted);
        } else {
          assert Submitted(bounds, wire, calls) == submitted;
        }
    }
  }

  lemma RecordedInvariant(bounds: Bounds, wire: Wire, s: seq<Event>, e: Event, now: Time, submitted: seq<Event>)
    requires bounds.maxEvents >= 1 && Admitted(bounds, wire, e)
    requires |s| <= bounds.maxEvents && TotalSize(wire, s) <= bounds.maxEncodedBytes && Subsequence(s, submitted)
    ensures |Recorded(bounds, wire, s, e, now)| <= bounds.maxEvents
    ensures TotalSize(wire, Recorded(bounds, wire, s, e, now)) <= bounds.maxEncodedBytes
    ensures Subsequence(Recorded(bounds, wire, s, e, now), submitted + [e])
  {
    hide Acceptable, Subsequence, Evicted, Unexpired, TotalSize;
    var cutoff := Reference(e, now) - bounds.retention;
    var kept := Unexpired(s, cutoff);
    UnexpiredShrinks(wire, s, cutoff);
    UnexpiredSubsequence(s, cutoff);
    SubsequenceTransitive(kept, s, submitted);
    if e.time < cutoff {
      SubsequenceOfLonger(kept, submitted, e);
    } else {
      var k := EvictionIsMinimal(bounds, wire, kept, SizeOf(wire, e));
      SuffixSubsequence(kept, k);
      SubsequenceTransitive(kept[k..], kept, submitted);
      SubsequenceAppend(kept[k..], submitted, e);
      TotalSizeAppend(wire, kept[k..], e);
    }
  }

  lemma SubsequenceOfLonger(a: seq<Event>, b: seq<Event>, e: Event)
    requires Subsequence(a, b)
    ensures Subsequence(a, b + [e])
  {
  }

  lemma SubsequenceAppend(a: seq<Event>, b: seq<Event>, e: Event)
    requires Subsequence(a, b)
    ensures Subsequence(a + [e], b + [e])
  {
  }

  lemma TotalSizeAppend(wire: Wire, s: seq<Event>, e: Event)
    ensures TotalSize(wire, s + [e]) == TotalSize(wire, s) + SizeOf(wire, e)
  {
  }

  ghost predicate Chronological(s: seq<Event>) {
    forall i, j | 0 <= i < j < |s| :: s[i].time <= s[j].time
  }

  lemma {:induction false} UnexpiredChronological(s: seq<Event>, cutoff: Time)
    requires Chronological(s)
    ensures Chronological(Unexpired(s, cutoff))
  {
    if s != [] {
      UnexpiredChronological(s[..|s| - 1], cutoff);
      UnexpiredMembers(s[..|s| - 1], cutoff);
      assert forall e | e in Unexpired(s[..|s| - 1], cutoff) :: e.time <= s[|s| - 1].time;
    }
  }

  /** The retained events that stay when e is recorded: not expired, and not evicted for e. */
  function Survivors(bounds: Bounds, wire: Wire, s: seq<Event>, e: Event, now: Time): seq<Event> {
    Evicted(bounds, wire, Unexpired(s, Reference(e, now) - bounds.retention), SizeOf(wire, e))
  }

  /** The call records no event, or one that no survivor is newer than. */
  ghost predicate KeepsOrder(bounds: Bounds, wire: Wire, s: seq<Event>, call: Call) {
    call.RecordAt? && Admitted(bounds, wire, call.event)
    && Reference(call.event, call.now) - bounds.retention <= call.event.time
    ==> forall x | x in Survivors(bounds, wire, s, call.event, call.now) :: x.time <= call.event.time
  }

  /** One call on a chronological buffer leaves it chronological exactly when it keeps order. */
  lemma ChronologicalExactly(bounds: Bounds, wire: Wire, s: seq<Event>, call: Call)
    requires bounds.maxEvents >= 1 && Chronological(s)
    ensures Chronological(After(bounds, wire, s, call)) <==> KeepsOrder(bounds, wire, s, call)
  {
    hide Acceptable, Evicted, Unexpired;
    match call
    case ReadAt(now) => UnexpiredChronological(s, now - bounds.retention);
    case RecordAt(e, now) =>
      var kept := Unexpired(s, Reference(e, now) - bounds.retention);
      UnexpiredChronological(s, Reference(e, now) - bounds.retention);
      if Admitted(bounds, wire, e) {
        var k := EvictionIsMinimal(bounds, wire, kept, SizeOf(wire, e));
        SuffixChronological(kept, k);
        AppendChronological(kept[k..], e);
      }
  }

  lemma SuffixChronological(s: seq<Event>, k: nat)
    requires Chronological(s) && k <= |s|
    ensures Chronological(s[k..])
  {
  }

  /** Whenever it is read during the run, the recorder holds its events in order of time. */
  ghost predicate AlwaysChronological(bounds: Bounds, wire: Wire, calls: seq<Call>) {
    forall n | 0 <= n <= |calls| :: Chronological(Run(bounds, wire, [], calls[..n]))
  }

  ghost predicate AlwaysKeepsOrder(bounds: Bounds, wire: Wire, calls: seq<Call>) {
    forall n | 0 <= n < |calls| :: KeepsOrder(bounds, wire, Run(bounds, wire, [], calls[..n]), calls[n])
  }

  /** One run: it reads chronologically throughout exactly when every call keeps order. */
  lemma {:induction false} RunChronologicalExactly(bounds: Bounds, wire: Wire, calls: seq<Call>)
    requires bounds.maxEvents >= 1
    ensures AlwaysChronological(bounds, wire, calls) <==> AlwaysKeepsOrder(bounds, wire, calls)
  {
    hide KeepsOrder, Chronological, After;
    EmptyIsChronological();
    if calls != [] {
      var init, last := calls[..|calls| - 1], calls[|calls| - 1];
      RunChronologicalExactly(bounds, wire, init);
      LastState(bounds, wire, calls);
      LastCall(bounds, wire, calls);
      var s := Run(bounds, wire, [], init);
      assert init[..|init|] == init;
      assert Run(bounds, wire, [], calls) == After(bounds, wire, s, last);
      if Chronological(s) { ChronologicalExactly(bounds, wire, s, last); }
    }
  }

  lemma EmptyIsChronological()
    ensures Chronological([])
  {
  }

  lemma LastState(bounds: Bounds, wire: Wire, calls: seq<Call>)
    requires calls != []
    ensures AlwaysChronological(bounds, wire, calls)
            <==> AlwaysChronological(bounds, wire, calls[..|calls| - 1]) && Chronological(Run(bounds, wire, [], calls))
  {
    hide Chronological, Run;
    var init := calls[..|calls| - 1];
    assert calls[..|calls|] == calls;
    forall n | 0 <= n <= |init| ensures calls[..n] == init[..n] {}
    if AlwaysChronological(bounds, wire, calls) {
      forall n | 0 <= n <= |init| ensures Chronological(Run(bounds, wire, [], init[..n])) {
        assert Chronological(Run(bounds, wire, [], calls[..n]));
      }
    } else {
      var n :| 0 <= n <= |calls| && !Chronological(Run(bounds, wire, [], calls[..n]));
      if n <= |init| { assert !Chronological(Run(bounds, wire, [], init[..n])); }
    }
  }

  lemma LastCall(bounds: Bounds, wire: Wire, calls: seq<Call>)
    requires calls != []
    ensures AlwaysKeepsOrder(bounds, wire, calls)
            <==> AlwaysKeepsOrder(bounds, wire, calls[..|calls| - 1])
                 && KeepsOrder(bounds, wire, Run(bounds, wire, [], calls[..|calls| - 1]), calls[|calls| - 1])
  {
    hide KeepsOrder, Run;
    var init := calls[..|calls| - 1];
    assert forall n | 0 <= n < |init| :: calls[..n] == init[..n] && calls[n] == init[n];
  }

  /** All runs: the accepted events are read chronologically by every recorder under every clock,
      whatever is read in between, exactly when they are recorded in order of time. */
  lemma EventsChronologicalExactly(wire: Wire, events: seq<Event>)
    requires forall e | e in events :: Acceptable(wire, e)
    ensures Chronological(events) <==>
            forall o, calls | ValidOptions(o) && Submitted(BoundsOf(o), wire, calls) == events ::
              AlwaysChronological(BoundsOf(o), wire, calls)
  {
    hide Acceptable, Run, Submitted, Chronological;
    if Chronological(events) {
      forall o, calls | ValidOptions(o) && Submitted(BoundsOf(o), wire, calls) == events
        ensures AlwaysChronological(BoundsOf(o), wire, calls)
      {
        forall n | 0 <= n <= |calls| ensures Chronological(Run(BoundsOf(o), wire, [], calls[..n])) {
          InOrderStaysInOrder(BoundsOf(o), wire, calls, n);
        }
      }
    } else {
      var bounds := BoundsOf(DEFAULT_OPTIONS);
      var i := Inversion(events);
      SubmittedAll(bounds, wire, events);
      InversionIsRead(bounds, wire, events, i);
      assert ValidOptions(DEFAULT_OPTIONS);
      assert !AlwaysChronological(bounds, wire, RecordAll(events));
    }
  }

  /** All bounds at their defaults. */
  const DEFAULT_OPTIONS := Options(0, 0, 0, 0)

  /** Records the events one after another, with the clock unset. */
  function RecordAll(events: seq<Event>): (calls: seq<Call>)
    ensures |calls| == |events|
  {
    seq(|events|, i requires 0 <= i < |events| => RecordAt(events[i], ZERO_TIME))
  }

  lemma {:induction false} SubmittedPrefix(bounds: Bounds, wire: Wire, calls: seq<Call>, n: nat)
    requires n <= |calls|
    ensures Submitted(bounds, wire, calls[..n]) <= Submitted(bounds, wire, calls)
  {
    hide Acceptable;
    if n == |calls| {
      assert calls[..n] == calls;
    } else {
      assert calls[..|calls| - 1][..n] == calls[..n];
      SubmittedPrefix(bounds, wire, calls[..|calls| - 1], n);
    }
  }

  lemma {:induction false} SubsequenceChronological(a: seq<Event>, b: seq<Event>)
    requires Subsequence(a, b) && Chronological(b)
    ensures Chronological(a) && forall x | x in a :: x in b
  {
    if a != [] {
      var front := b[..|b| - 1];
      if Subsequence(a, front) {
        SubsequenceChronological(a, front);
      } else {
        SubsequenceChronological(a[..|a| - 1], front);
        assert forall x | x in front :: x.time <= b[|b| - 1].time;
        AppendChronological(a[..|a| - 1], a[|a| - 1]);
        assert a == a[..|a| - 1] + [a[|a| - 1]];
      }
    }
  }

  lemma InOrderStaysInOrder(bounds: Bounds, wire: Wire, calls: seq<Call>, n: nat)
    requires bounds.maxEvents >= 1 && n <= |calls| && Chronological(Submitted(bounds, wire, calls))
    ensures Chronological(Run(bounds, wire, [], calls[..n]))
  {
    hide Acceptable, Run, Submitted, Subsequence, TotalSize;
    RunInvariant(bounds, wire, calls[..n]);
    SubmittedPrefix(bounds, wire, calls, n);
    SubsequenceChronological(Run(bounds, wire, [], calls[..n]), Submitted(bounds, wire, calls[..n]));
  }

  /** Events out of order have neighbours out of order. */
  lemma {:induction false} Inversion(events: seq<Event>) returns (i: nat)
    requires !Chronological(events)
    ensures i + 1 < |events| && events[i].time > events[i + 1].time
  {
    var front := events[..|events| - 1];
    if Chronological(front) {
      i := |events| - 2;
      assert front[i] == events[i];
    } else {
      i := Inversion(front);
    }
  }

  lemma {:induction false} SubmittedAll(bounds: Bounds, wire: Wire, events: seq<Event>)
    requires forall e | e in events :: Admitted(bounds, wire, e)
    ensures Submitted(bounds, wire, RecordAll(events)) == events
  {
    hide Admitted;
    if events != [] {
      var front := events[..|events| - 1];
      assert RecordAll(events)[..|events| - 1] == RecordAll(front);
      SubmittedAll(bounds, wire, front);
    }
  }

  /** A recorder at its defaults keeps the last event recorded while it records one more. */
  lemma LastTwo(bounds: Bounds, wire: Wire, s: seq<Event>, a: Event, e: Event)
    requires bounds.maxEvents >= 2 && SizeOf(wire, a) + SizeOf(wire, e) <= bounds.maxEncodedBytes
    requires s != [] && s[|s| - 1] == a && e.time - bounds.retention <= a.time
    ensures var r := Recorded(bounds, wire, s, e, ZERO_TIME);
            |r| >= 2 && r[|r| - 2] == a && r[|r| - 1] == e
  {
    hide Evicted, TotalSize;
    var kept := Unexpired(s, e.time - bounds.retention);
    var k := EvictionIsMinimal(bounds, wire, kept, SizeOf(wire, e));
    var m := |kept| - 1;
    assert kept[m..] == [] + [a];
    TotalSizeAppend(wire, [], a);
    assert TotalSize(wire, []) == 0 by { NoSize(wire); }
    assert Fits(bounds, wire, kept[m..], SizeOf(wire, e));
  }

  lemma NoSize(wire: Wire)
    ensures TotalSize(wire, []) == 0
  {
  }

  lemma InversionIsRead(bounds: Bounds, wire: Wire, events: seq<Event>, i: nat)
    requires bounds.maxEvents >= 2 && bounds.maxEncodedBytes >= 2 * MAX_EVENT_BYTES
    requires forall e | e in events :: Admitted(bounds, wire, e)
    requires i + 1 < |events| && events[i].time > events[i + 1].time
    ensures !AlwaysChronological(bounds, wire, RecordAll(events))
  {
    hide Acceptable, Evicted, Unexpired, TotalSize;
    var calls := RecordAll(events);
    assert calls[..i + 1][..i] == calls[..i] && calls[..i + 2][..i + 1] == calls[..i + 1];
    var s := Run(bounds, wire, [], calls[..i]);
    var t := Recorded(bounds, wire, s, events[i], ZERO_TIME);
    assert Run(bounds, wire, [], calls[..i + 1]) == t;
    assert t != [] && t[|t| - 1] == events[i];
    assert events[i] in events && events[i + 1] in events;
    LastTwo(bounds, wire, t, events[i], events[i + 1]);
    assert !Chronological(Run(bounds, wire, [], calls[..i + 2]));
  }

  /** The failing input: a newer event, then an older one that is still within the retention. */
  lemma LateEventComesLast(bounds: Bounds, wire: Wire, newer: Event, older: Event, now: Time)
    requires bounds.maxEvents >= 2 && Admitted(bounds, wire, newer) && Admitted(bounds, wire, older)
    requires SizeOf(wire, newer) + SizeOf(wire, older) <= bounds.maxEncodedBytes
    requires ZERO_TIME < older.time < newer.time <= now <= older.time + bounds.retention
    ensures Run(bounds, wire, [], [RecordAt(newer, now), RecordAt(older, now)]) == [newer, older]
    ensures !Chronological([newer, older])
  {
    hide Acceptable;
    var calls := [RecordAt(newer, now), RecordAt(older, now)];
    assert calls[..1] == [RecordAt(newer, now)] && calls[..1][..0] == [];
    assert Run(bounds, wire, [], []) == [];
    assert Run(bounds, wire, [], calls[..1]) == After(bounds, wire, [], calls[0]);
    assert [newer][..0] == [];
    assert Unexpired([], now - bounds.retention) == [] && TotalSize(wire, []) == 0;
    assert Run(bounds, wire, [], calls[..1]) == [] + [newer] == [newer];
    assert Unexpired([newer], now - bounds.retention) == [] + [newer] == [newer];
    assert TotalSize(wire, [newer]) == SizeOf(wire, newer);
    assert [newer, older][0].time > [newer, older][1].time;
  }

  lemma AppendChronological(s: seq<Event>, e: Event)
    requires Chronological(s)
    ensures Chronological(s + [e]) <==> forall x | x in s :: x.time <= e.time
  {
    var r := s + [e];
    if Chronological(r) {
      forall x | x in s ensures x.time <= e.time {
        var i :| 0 <= i < |s| && s[i] == x;
        assert r[i].time <= r[|s|].time;
      }
    }
  }

  /** What recording an admitted event comes to, in terms of the clock: with the clock unset or
      behind the event, age is measured from the event and the event is kept; otherwise from the
      clock, and the event is kept exactly if it is within the retention. Kept means last. */
  lemma RecordedExactly(bounds: Bounds, wire: Wire, s: seq<Event>, e: Event, now: Time)
    requires bounds.maxEvents >= 1 && Admitted(bounds, wire, e)
    ensures var r := Recorded(bounds, wire, s, e, now);
            if now != ZERO_TIME && e.time + bounds.retention < now then
              r == Unexpired(s, now - bounds.retention)
            else
              && r != [] && r[|r| - 1] == e
              && (forall x | x in r[..|r| - 1] :: x in s)
              && forall x | x in r ::
                   if now == ZERO_TIME || now < e.time then e.time <= x.time + bounds.retention
                   else now <= x.time + bounds.retention
  {
    hide Acceptable, Evicted, Unexpired, TotalSize;
    var cutoff := Reference(e, now) - bounds.retention;
    var kept := Unexpired(s, cutoff);
    UnexpiredMembers(s, cutoff);
    if cutoff <= e.time {
      var k := EvictionIsMinimal(bounds, wire, kept, SizeOf(wire, e));
      assert (kept[k..] + [e])[..|kept[k..]|] == kept[k..];
      assert forall x | x in kept[k..] :: x in kept;
    }
  }

  /** What is admitted, in numbers. */
  lemma AdmittedExactly(bounds: Bounds, wire: Wire, e: Event)
    ensures Admitted(bounds, wire, e) <==>
              && e.time != 0 && e.severity in {"info", "warning", "error"} && e.component in COMPONENTS
              && wire.registered(e.errorCode)
              && wire.size(e).Some? && wire.size(e).value <= 2048
              && wire.size(e).value <= bounds.maxEventBytes && wire.size(e).value <= bounds.maxEncodedBytes
              && (e.context.Some? ==>
                    var c := e.context.value;
                    && (c.operation == "" || c.operation in OPERATIONS) && (c.state == "" || c.state in STATES)
                    && (c.httpMethod == "" || c.httpMethod in HTTP_METHODS)
                    && (c.vaultTier == "" || c.vaultTier in VAULT_TIERS)
                    && (c.httpStatus == 0 || 100 <= c.httpStatus < 600) && 0 <= c.schemaVersion <= 1_000_000)
  {
  }

  // ---- The recorder -------------------------------------------------------------------------

  datatype Options = Options(maxEvents: int, maxEncodedBytes: int, maxEventBytes: int, retention: int)

  predicate ValidOptions(o: Options) {
    && 0 <= o.maxEvents <= MAX_RECORDER_EVENTS
    && 0 <= o.maxEncodedBytes <= MAX_RECORDER_BYTES
    && 0 <= o.maxEventBytes <= MAX_EVENT_BYTES
    && 0 <= o.retention
  }

  /** Zero selects the default of each bound. */
  function BoundsOf(o: Options): (b: Bounds)
    requires ValidOptions(o)
    ensures 1 <= b.maxEvents <= MAX_RECORDER_EVENTS
    ensures 1 <= b.maxEncodedBytes <= MAX_RECORDER_BYTES && 1 <= b.maxEventBytes <= MAX_EVENT_BYTES
  {
    Bounds(
      if o.maxEvents == 0 then DEFAULT_MAX_EVENTS else o.maxEvents,
      if o.maxEncodedBytes == 0 then DEFAULT_MAX_ENCODED_BYTES else o.maxEncodedBytes,
      if o.maxEventBytes == 0 then MAX_EVENT_BYTES else o.maxEventBytes,
      if o.retention == 0 then DEFAULT_RETENTION else o.retention)
  }

  /** The bound is the option, or the default where the option is zero. */
  ghost predicate SelectedOr(option: int, byDefault: int, bound: int) {
    (option == 0 ==> bound == byDefault) && (option != 0 ==> bound == option)
  }

  /** Of an error the event holds its registered code or the code for internal errors; of the rest,
      what the caller passed. */
  ghost predicate OnlyTheCode(wire: Wire, component: string, operation: string, severity: string, code: string,
                              at: Time, e: Event) {
    && e.time == at && e.severity == severity && e.component == component
    && (wire.registered(code) ==> e.errorCode == code)
    && (!wire.registered(code) ==> e.errorCode == "CF_CLI_INTERNAL")
    && (operation == "" ==> e.context.None?)
    && (operation != "" ==> e.context == Some(Context(operation, "", "", 0, 0, "")))
  }

  /** A backing array half compacted: the window at `start` read up to i, `kept` events of `bytes`
      encoded bytes written back. */
  ghost predicate Compacting(wire: Wire, cutoff: Time, all: seq<Event>, now: seq<Event>,
                             start: nat, i: nat, kept: nat, bytes: nat) {
    && |now| == |all| && start + i <= |all| && kept <= i
    && now[start..start + kept] == Unexpired(all[start..start + i], cutoff)
    && bytes == TotalSize(wire, now[start..start + kept])
    && forall k | 0 <= k < |all| && !(start <= k < start + i) :: now[k] == all[k]
  }

  lemma CompactBegins(wire: Wire, all: seq<Event>, start: nat, cutoff: Time)
    requires start <= |all|
    ensures Compacting(wire, cutoff, all, all, start, 0, 0, 0)
  {
  }

  lemma CompactStep(wire: Wire, cutoff: Time, all: seq<Event>, now: seq<Event>, start: nat, i: nat, kept: nat,
                    bytes: nat)
    requires Compacting(wire, cutoff, all, now, start, i, kept, bytes) && start + i < |all|
    ensures |now| == |all|
    ensures var event := now[start + i];
            if event.time < cutoff then Compacting(wire, cutoff, all, now, start, i + 1, kept, bytes)
            else Compacting(wire, cutoff, all, now[start + kept := event], start, i + 1, kept + 1,
                bytes + SizeOf(wire, event))
  {
    hide Unexpired, TotalSize, SizeOf;
    var event, window := now[start + i], all[start..start + i + 1];
    assert window[..i] == all[start..start + i] && window[..i + 1] == window && window[i] == event;
    UnexpiredStep(wire, window, i, cutoff);
    if cutoff <= event.time {
      var next := now[start + kept := event];
      assert next[start..start + kept + 1] == now[start..start + kept] + [event];
    }
  }

  lemma CompactEnds(wire: Wire, cutoff: Time, all: seq<Event>, now: seq<Event>, start: nat, i: nat, kept: nat,
                    bytes: nat)
    requires Compacting(wire, cutoff, all, now, start, i, kept, bytes)
    ensures |now| == |all| && start + i <= |all| && kept <= i
    ensures now[start..start + kept] == Unexpired(all[start..start + i], cutoff)
    ensures bytes == TotalSize(wire, Unexpired(all[start..start + i], cutoff))
    ensures forall k | 0 <= k < |all| && !(start <= k < start + i) :: now[k] == all[k]
  {
  }

  /** The Go slice `events` is the window buffer[start..start + count]; its capacity reaches to
      the end of the backing array. `spare` is the growth policy of append: any will do. */
  class Recorder {
    const bounds: Bounds
    const wire: Wire
    const spare: nat -> nat
    var buffer: array<Event>
    var start: nat
    var count: nat
    var encodedBytes: int

    ghost predicate Window()
      reads this
    {
      start + count <= buffer.Length
    }

    ghost function Contents(): seq<Event>
      reads this, buffer
      requires Window()
    {
      buffer[start..start + count]
    }

    ghost predicate Valid()
      reads this, buffer
    {
      && Window()
      && 1 <= bounds.maxEvents
      && count <= bounds.maxEvents
      && (forall e | e in Contents() :: wire.size(e).Some?)
      && encodedBytes == TotalSize(wire, Contents())
      && encodedBytes <= bounds.maxEncodedBytes
    }

    constructor (bounds: Bounds, wire: Wire, spare: nat -> nat)
      requires 1 <= bounds.maxEvents
      ensures Valid() && Contents() == [] && fresh(buffer)
      ensures this.bounds == bounds && this.wire == wire
    {
      this.bounds, this.wire, this.spare := bounds, wire, spare;
      buffer := new Event[0];
      start, count, encodedBytes := 0, 0, 0;
    }

    static method NewRecorder(options: Options, wire: Wire, spare: nat -> nat) returns (r: Option<Recorder>)
      ensures r.Some? <==> ValidOptions(options)
      ensures r.Some? <==>
                && 0 <= options.maxEvents <= 4096 && 0 <= options.maxEncodedBytes <= 52_428_800
                && 0 <= options.maxEventBytes <= 2048 && 0 <= options.retention
      ensures r.Some? ==> fresh(r.value) && fresh(r.value.buffer) && r.value.Valid()
                          && r.value.Contents() == [] && r.value.bounds == BoundsOf(options)
      ensures r.Some? ==> SelectedOr(options.maxEvents, 128, r.value.bounds.maxEvents)
                          && SelectedOr(options.maxEncodedBytes, 52_428_800, r.value.bounds.maxEncodedBytes)
                          && SelectedOr(options.maxEventBytes, 2048, r.value.bounds.maxEventBytes)
                          && SelectedOr(options.retention, 14 * 86_400_000_000_000, r.value.bounds.retention)
    {
      if !ValidOptions(options) { return None; }
      var recorder := new Recorder(BoundsOf(options), wire, spare);
      return Some(recorder);
    }

    /** Compacts the window in place over the shared backing array. The write position never
        passes the read position, so append stays within capacity; nothing outside the window
        is written. */
    method Compact(cutoff: Time) returns (kept: nat, bytes: nat)
      requires Window()
      modifies buffer
      ensures kept <= count && buffer[start..start + kept] == Unexpired(old(Contents()), cutoff)
      ensures bytes == TotalSize(wire, Unexpired(old(Contents()), cutoff))
      ensures forall k | 0 <= k < buffer.Length && !(start <= k < start + count) :: buffer[k] == old(buffer[k])
    {
      hide Unexpired, TotalSize, Compacting;
      kept, bytes := 0, 0;
      ghost var all := buffer[..];
      CompactBegins(wire, all, start, cutoff);
      for i := 0 to count
        invariant kept <= i && Compacting(wire, cutoff, all, buffer[..], start, i, kept, bytes)
      {
        CompactStep(wire, cutoff, all, buffer[..], start, i, kept, bytes);
        var event := buffer[start + i];
        if cutoff <= event.time {
          buffer[start + kept] := event;
          kept, bytes := kept + 1, bytes + SizeOf(wire, event);
        }
      }
      CompactEnds(wire, cutoff, all, buffer[..], start, count, kept, bytes);
    }

    method RemoveExpired(at: Time)
      requires Valid()
      modifies this`count, this`encodedBytes, buffer
      ensures Valid()
      ensures Contents() == Unexpired(old(Contents()), at - bounds.retention)
      ensures forall k | 0 <= k < buffer.Length && !(start <= k < start + old(count)) :: buffer[k] == old(buffer[k])
    {
      hide TotalSize, Unexpired;
      ghost var was := Contents();
      UnexpiredShrinks(wire, was, at - bounds.retention);
      UnexpiredMembers(was, at - bounds.retention);
      var kept, bytes := Compact(at - bounds.retention);
      count, encodedBytes := kept, bytes;
      assert Contents() == Unexpired(was, at - bounds.retention);
    }

    /** Drops the head of the window; the freed slot stays in the backing array. */
    method RemoveOldest()
      requires Valid()
      modifies this`start, this`count, this`encodedBytes
      ensures Valid()
      ensures Contents() == if old(Contents()) == [] then [] else old(Contents())[1..]
    {
      if count == 0 { return; }
      ghost var was := Contents();
      assert was == [was[0]] + was[1..];
      TotalSizeSplit(wire, [was[0]], was[1..]);
      assert [was[0]][..0] == [];
      if wire.size(buffer[start]).Some? {
        var left := encodedBytes - wire.size(buffer[start]).value;
        encodedBytes := if left < 0 then 0 else left;
      }
      start, count := start + 1, count - 1;
      assert Contents() == was[1..];
    }

    /** The eviction loop. It ends because an empty window has no bytes, the event fits the byte
        bound on its own, and maxEvents is at least 1: RemoveOldest never meets an empty window. */
    method MakeRoom(size: nat)
      requires Valid() && size <= bounds.maxEncodedBytes
      modifies this`start, this`count, this`encodedBytes
      ensures Valid()
      ensures Contents() == Evicted(bounds, wire, old(Contents()), size)
      ensures Fits(bounds, wire, Contents(), size)
    {
      while count >= bounds.maxEvents || encodedBytes + size > bounds.maxEncodedBytes
        invariant Valid()
        invariant Evicted(bounds, wire, Contents(), size) == Evicted(bounds, wire, old(Contents()), size)
        decreases count
      {
        assert Contents() == [] ==> encodedBytes == 0;
        assert count > 0;
        RemoveOldest();
      }
    }

    /** append: in place while capacity lasts, otherwise into a new array. */
    method Append(event: Event)
      requires Window()
      modifies this`buffer, this`start, this`count, buffer
      ensures Window() && (buffer == old(buffer) || fresh(buffer))
      ensures Contents() == old(Contents()) + [event]
    {
      if start + count == buffer.Length {
        var grown := new Event[count + 1 + spare(count)];
        for i := 0 to count
          invariant buffer == old(buffer) && start == old(start) && count == old(count)
          invariant buffer[..] == old(buffer[..])
          invariant grown[..i] == buffer[start..start + i]
        {
          grown[i] := buffer[start + i];
        }
        buffer, start := grown, 0;
      }
      buffer[start + count] := event;
      count := count + 1;
    }

    method Retain(event: Event, size: nat)
      requires Valid() && size <= bounds.maxEncodedBytes && wire.size(event) == Some(size)
      modifies this`buffer, this`start, this`count, this`encodedBytes, buffer
      ensures Valid() && (buffer == old(buffer) || fresh(buffer))
      ensures Contents() == Evicted(bounds, wire, old(Contents()), size) + [event]
    {
      hide Evicted, TotalSize;
      MakeRoom(size);
      ghost var room := Contents();
      TotalSizeAppend(wire, room, event);
      Append(event);
      encodedBytes := encodedBytes + size;
      assert Contents() == room + [event];
    }

    /** Records one event. */
    method Record(event: Event, now: Time) returns (outcome: Outcome)
      requires Valid()
      modifies this`buffer, this`start, this`count, this`encodedBytes, buffer
      ensures Valid() && (buffer == old(buffer) || fresh(buffer))
      ensures outcome.Accepted? <==> Admitted(bounds, wire, event)
      ensures outcome.Rejected? ==> unchanged(this) && unchanged(buffer)
      ensures Contents() == After(bounds, wire, old(Contents()), RecordAt(event, now))
      ensures outcome.Accepted? && (now == ZERO_TIME || now <= event.time + bounds.retention)
              ==> Contents() != [] && Contents()[count - 1] == event
    {
      hide Acceptable, Unexpired, Evicted, TotalSize;
      if !Acceptable(wire, event) { return Rejected; }
      var size := wire.size(event).value;
      if size > bounds.maxEventBytes || size > bounds.maxEncodedBytes { return Rejected; }
      var reference := now;
      if reference == ZERO_TIME || reference < event.time {
        reference := event.time;
      }
      RemoveExpired(reference);
      if event.time < reference - bounds.retention { return Accepted; }
      Retain(event, size);
      return Accepted;
    }

    /** Only a registered code leaves the error; the clock is read once for the event's time and
        once more by Record. */
    method RecordError(component: string, operation: string, severity: string, code: string, at: Time, now: Time)
      returns (outcome: Outcome)
      requires Valid()
      modifies this`buffer, this`start, this`count, this`encodedBytes, buffer
      ensures Valid() && (buffer == old(buffer) || fresh(buffer))
      ensures outcome.Accepted? <==> Admitted(bounds, wire, ErrorEvent(wire, component, operation, severity, code, at))
      ensures Contents() == After(bounds, wire, old(Contents()),
                                  RecordAt(ErrorEvent(wire, component, operation, severity, code, at), now))
      ensures outcome.Accepted? && (now == ZERO_TIME || now <= at + bounds.retention) ==>
                Contents() != [] && OnlyTheCode(wire, component, operation, severity, code, at, Contents()[count - 1])
    {
      var event := ErrorEvent(wire, component, operation, severity, code, at);
      if !Acceptable(wire, event) { return Rejected; }
      outcome := Record(event, now);
    }

    method CopyWindow() returns (result: array<Event>)
      requires Window()
      ensures fresh(result) && result[..] == Contents()
    {
      result := new Event[count];
      for i := 0 to count
        invariant forall j | 0 <= j < i :: result[j] == buffer[start + j]
      {
        result[i] := buffer[start + i];
      }
    }

    /** The retained events, copied into an array of the caller's own. */
    method Events(now: Time) returns (result: array<Event>)
      requires Valid()
      modifies this`count, this`encodedBytes, buffer
      ensures Valid() && fresh(result) && result[..] == Contents()
      ensures Contents() == Unexpired(old(Contents()), now - bounds.retention)
    {
      hide Unexpired, TotalSize;
      RemoveExpired(now);
      result := CopyWindow();
    }

    method Len(now: Time) returns (n: nat)
      requires Valid()
      modifies this`count, this`encodedBytes, buffer
      ensures Valid() && Contents() == Unexpired(old(Contents()), now - bounds.retention)
      ensures n == |Contents()| <= bounds.maxEvents
    {
      RemoveExpired(now);
      n := count;
    }

    method EncodedBytes(now: Time) returns (n: int)
      requires Valid()
      modifies this`count, this`encodedBytes, buffer
      ensures Valid() && Contents() == Unexpired(old(Contents()), now - bounds.retention)
      ensures n == TotalSize(wire, Contents()) <= bounds.maxEncodedBytes
    {
      RemoveExpired(now);
      n := encodedBytes;
    }
  }

  /** One call of a run, made on the recorder. */
  method Perform(recorder: Recorder, call: Call)
    requires recorder.Valid()
    modifies recorder, recorder.buffer
    ensures recorder.Valid() && (recorder.buffer == old(recorder.buffer) || fresh(recorder.buffer))
    ensures recorder.Contents() == After(recorder.bounds, recorder.wire, old(recorder.Contents()), call)
  {
    match call
    case RecordAt(event, now) => var _ := recorder.Record(event, now);
    case ReadAt(now) => var _ := recorder.Events(now);
  }

  /** The recorder is the model over every run of calls, and a slice handed out by Events before
      the run is not changed by any of them. */
  method ReadThenRun(recorder: Recorder, readAt: Time, calls: seq<Call>) returns (snapshot: array<Event>)
    requires recorder.Valid()
    modifies recorder, recorder.buffer
    ensures recorder.Valid() && fresh(snapshot)
    ensures snapshot[..] == Unexpired(old(recorder.Contents()), readAt - recorder.bounds.retention)
    ensures recorder.Contents() == Run(recorder.bounds, recorder.wire, snapshot[..], calls)
  {
    hide Unexpired, TotalSize, After;
    snapshot := recorder.Events(readAt);
    ghost var seen := snapshot[..];
    for i := 0 to |calls|
      invariant recorder.Valid() && fresh(snapshot) && snapshot[..] == seen
      invariant recorder.buffer != snapshot && (recorder.buffer == old(recorder.buffer) || fresh(recorder.buffer))
      invariant recorder.Contents() == Run(recorder.bounds, recorder.wire, seen, calls[..i])
    {
      assert calls[..i + 1][..i] == calls[..i];
      Perform(recorder, calls[i]);
    }
    assert calls[..|calls|] == calls;
  }
}
