/** The projector: previews, stages, applies and rolls back projections on a file system where
    every call can fail. */
module Projectors {
  import opened Wrappers
  import opened Ordering
  import opened PackFiles
  import opened FileSystems
  import opened Projection
  import opened Transactions

  datatype Plan = Plan(digest: string, files: seq<string>, conflicts: seq<Change>)
  datatype Report = Report(digest: string, files: seq<string>)

  class Projector {
    const fs: FileSystem
    const f: Foreign

    constructor (fs: FileSystem, f: Foreign)
      ensures this.fs == fs && this.f == f
    {
      this.fs, this.f := fs, f;
    }

    // ---- Undo -----------------------------------------------------------------------------------

    /** One turn of the rollback loop: remove what was installed, put back what was moved. A failed
        removal does not stop the old file from being renamed over the new one. */
    method UndoOne(item: PriorFile, ghost d0: Disk, ghost stage: nat, ghost p: string) returns (ok: bool)
      requires fs.Valid() && stage < fs.stages
      requires item.path == Home(p) && item.backup == Prior(stage, p)
      requires InFlight(d0, fs.disk, stage, p, item)
      modifies fs`disk, fs`calls
      ensures fs.Valid() && OnlyAt(old(fs.disk), fs.disk, stage, p)
      ensures Undone(d0, fs.disk, stage, p, ok)
      ensures fs.calls >= old(fs.calls)
      ensures item.moved ==> fs.calls > 0 && (!fs.fails(fs.calls - 1) ==> Settled(d0, fs.disk, p))
      ensures ok || !fs.Undisturbed(old(fs.calls), fs.calls)
    {
      ok := true;
      if item.installed {
        var removed := fs.Remove(item.path);
        if !removed { ok := false; }
      }
      if item.moved {
        var back := fs.Rename(item.backup, item.path);
        if !back { ok := false; }
      }
    }

    /** Walks the applied indices backwards. Reports true only if every undo step succeeded, and
        then the home is as it was; in any case no file's old content is lost. */
    method Rollback(applied: seq<nat>, prior: array<PriorFile>, ghost d0: Disk, ghost stage: nat,
                    ghost paths: seq<string>)
      returns (restored: bool)
      requires fs.Valid() && stage < fs.stages && Distinct(paths)
      requires Consistent(d0, fs.disk, stage, paths, prior[..])
      requires forall j | 0 <= j < |paths| ::
                 prior[j].path == Home(paths[j]) && prior[j].backup == Prior(stage, paths[j])
      requires forall j | 0 <= j < prior.Length && j !in applied :: !prior[j].moved && !prior[j].installed
      requires forall k | 0 <= k < |applied| :: applied[k] < |paths| && applied[k] !in applied[..k]
      modifies fs`disk, fs`calls
      ensures fs.Valid() && Untouched(d0, fs.disk, stage, Elements(paths))
      ensures forall j | 0 <= j < |paths| :: Undone(d0, fs.disk, stage, paths[j], restored)
      ensures fs.calls >= old(fs.calls)
      ensures restored || !fs.Undisturbed(old(fs.calls), fs.calls)
    {
      hide InFlight, Undone, Untouched;
      restored := true;
      RollbackBegins(d0, fs.disk, stage, paths, prior[..], applied);
      var index := |applied| - 1;
      while index >= 0
        invariant -1 <= index < |applied|
        invariant fs.Valid() && fs.calls >= old(fs.calls)
        invariant Rolling(d0, fs.disk, stage, paths, prior[..], applied, index + 1, restored)
        invariant restored || !fs.Undisturbed(old(fs.calls), fs.calls)
      {
        var k := applied[index];
        ghost var before := fs.disk;
        assert k in applied[..index + 1] by { assert applied[..index + 1][index] == k; }
        assert prior[..][k] == prior[k];
        var ok := UndoOne(prior[k], d0, stage, paths[k]);
        RollbackNext(d0, before, fs.disk, stage, paths, prior[..], applied, index, restored, ok);
        if !ok { restored := false; }
        index := index - 1;
      }
    }

    // ---- Apply ----------------------------------------------------------------------------------

    /** What an item must say before its turn. */
    static ghost predicate Ready(d0: Disk, stage: nat, p: string, item: PriorFile) {
      && item.path == Home(p)
      && item.backup == Prior(stage, p)
      && !item.moved && !item.installed
      && (item.present <==> Home(p) in d0)
      && (item.install && !item.preserve ==> Next(stage, p) in d0)
    }

    /** Replaces one file: moves the old one aside, renames the staged one in. */
    method ApplyOne(prior: array<PriorFile>, i: nat, ghost d0: Disk, stage: nat, paths: seq<string>) returns (ok: bool)
      requires fs.Valid() && stage < fs.stages && Distinct(paths)
      requires Consistent(d0, fs.disk, stage, paths, prior[..])
      requires i < |paths| && Ready(d0, stage, paths[i], prior[i]) && !prior[i].preserve
      modifies fs`disk, fs`calls, prior
      ensures fs.Valid() && Consistent(d0, fs.disk, stage, paths, prior[..])
      ensures prior[..] == old(prior[..])[i := prior[i]]
      ensures prior[i].(moved := false, installed := false) == old(prior[i])
      ensures ok ==> prior[i].moved == prior[i].present && prior[i].installed == prior[i].install
      ensures fs.calls >= old(fs.calls)
      ensures ok || !fs.Undisturbed(old(fs.calls), fs.calls)
    {
      hide InFlight, Untouched;
      ghost var p := paths[i];
      assert prior[..][i] == prior[i];
      CurrentFile(d0, fs.disk, stage, p, prior[i]);
      if fs.cancelled(fs.calls) { return false; }
      if prior[i].present {
        ok := fs.Check();
        if !ok { return; }
        MoveAside(d0, fs.disk, stage, p, prior[i]);
        Advance(d0, fs.disk, Renamed(fs.disk, Home(p), Prior(stage, p)), stage, paths, prior[..], i,
            prior[i].(moved := true));
        ok := fs.Rename(prior[i].path, prior[i].backup);
        if !ok { return; }
        prior[i] := prior[i].(moved := true);
      }
      if prior[i].install {
        ok := fs.Check();
        if !ok { return; }
        assert prior[..][i] == prior[i];
        StagedFile(d0, fs.disk, stage, p, prior[i]);
        Install(d0, fs.disk, stage, p, prior[i]);
        Advance(d0, fs.disk, Renamed(fs.disk, Next(stage, p), Home(p)), stage, paths, prior[..], i,
            prior[i].(installed := true));
        ok := fs.Rename(Next(stage, paths[i]), prior[i].path);
        if !ok { return; }
        prior[i] := prior[i].(installed := true);
      }
      ok := true;
    }

    static lemma CurrentFile(d0: Disk, d: Disk, stage: nat, p: string, item: PriorFile)
      requires InFlight(d0, d, stage, p, item) && !item.moved && !item.installed
      ensures Home(p) in d <==> Home(p) in d0
    {
    }

    static lemma StagedFile(d0: Disk, d: Disk, stage: nat, p: string, item: PriorFile)
      requires InFlight(d0, d, stage, p, item) && !item.installed && Next(stage, p) in d0
      ensures Next(stage, p) in d
    {
    }

    /** The final disk entry of a path whose turn has passed. */
    static ghost predicate Finished(d0: Disk, d: Disk, stage: nat, p: string, item: PriorFile) {
      At(d, Home(p)) == if item.preserve then At(d0, Home(p))
                        else if item.install then At(d0, Next(stage, p)) else None
    }

    static ghost predicate AllReady(d0: Disk, stage: nat, paths: seq<string>, items: seq<PriorFile>) {
      |items| == |paths| && forall j | 0 <= j < |paths| :: Ready(d0, stage, paths[j], items[j])
    }

    static ghost predicate AllFinished(d0: Disk, d: Disk, stage: nat, paths: seq<string>, items: seq<PriorFile>) {
      |items| == |paths| && forall j | 0 <= j < |paths| :: Finished(d0, d, stage, paths[j], items[j])
    }

    static ghost predicate AllUndone(d0: Disk, d: Disk, stage: nat, paths: seq<string>, restored: bool) {
      forall j | 0 <= j < |paths| :: Undone(d0, d, stage, paths[j], restored)
    }

    /** The items after `index` turns of the apply loop: only begun ones have changed, and only in
        how far they have got. */
    static ghost predicate Progress(was: seq<PriorFile>, now: seq<PriorFile>, index: nat, applied: seq<nat>) {
      && |now| == |was| && index <= |was|
      && (forall j | 0 <= j < |was| && j !in applied :: now[j] == was[j])
      && (forall j | 0 <= j < |was| :: now[j].(moved := was[j].moved, installed := was[j].installed) == was[j])
      && (forall j | 0 <= j < |was| :: now[j].preserve ==> now[j] == was[j])
      && (forall j | 0 <= j < index :: Turned(now[j]))
    }

    static ghost predicate Turned(item: PriorFile) {
      item.preserve || (item.moved == item.present && item.installed == item.install)
    }

    /** Applies the staged files one by one; on any failure or cancellation rolls back the items
        begun so far, the failing one included. */
    method Apply(prior: array<PriorFile>, ghost d0: Disk, stage: nat, paths: seq<string>)
      returns (ok: bool, restored: bool)
      requires fs.Valid() && stage < fs.stages && Distinct(paths) && prior.Length == |paths|
      requires fs.disk == d0 && forall p | p in paths :: Prior(stage, p) !in d0
      requires AllReady(d0, stage, paths, prior[..])
      modifies fs`disk, fs`calls, prior
      ensures fs.Valid() && Untouched(d0, fs.disk, stage, Elements(paths))
      ensures ok ==> AllFinished(d0, fs.disk, stage, paths, old(prior[..]))
      ensures !ok ==> AllUndone(d0, fs.disk, stage, paths, restored)
      ensures fs.calls >= old(fs.calls)
      ensures ok || !fs.Undisturbed(old(fs.calls), fs.calls)
    {
      hide InFlight, Untouched, AllFinished, AllReady, Undone, Progress, Ready;
      ghost var was := prior[..];
      ApplyBegins(d0, stage, paths, was);
      var applied: seq<nat> := [];
      for index := 0 to |paths|
        invariant fs.Valid() && fs.calls >= old(fs.calls)
        invariant Consistent(d0, fs.disk, stage, paths, prior[..])
        invariant Progress(was, prior[..], index, applied) && AppliedBelow(applied, index)
      {
        NextIsReady(d0, stage, paths, was, prior[..], index, applied);
        assert prior[..][index] == prior[index];
        if prior[index].preserve {
          AppliedWeaken(applied, index);
          ProgressSkips(was, prior[..], index, applied);
          continue;
        }
        AppliedAppend(applied, index);
        ghost var before := prior[..];
        ok := ApplyOne(prior, index, d0, stage, paths);
        ProgressMoves(was, before, index, applied, prior[index], ok);
        applied := applied + [index];
        if !ok {
          ProgressStops(d0, stage, paths, was, prior[..], index, applied);
          restored := Rollback(applied, prior, d0, stage, paths);
          return;
        }
      }
      ProgressEnds(d0, fs.disk, stage, paths, was, prior[..], applied);
      ok, restored := true, true;
    }

    static lemma NextIsReady(d0: Disk, stage: nat, paths: seq<string>, was: seq<PriorFile>, now: seq<PriorFile>,
                             index: nat, applied: seq<nat>)
      requires AllReady(d0, stage, paths, was) && Progress(was, now, index, applied) && AppliedBelow(applied, index)
      requires index < |paths|
      ensures index < |now| && Ready(d0, stage, paths[index], now[index])
    {
    }

    static lemma ProgressSkips(was: seq<PriorFile>, now: seq<PriorFile>, index: nat, applied: seq<nat>)
      requires Progress(was, now, index, applied) && index < |now| && now[index].preserve
      ensures Progress(was, now, index + 1, applied)
    {
    }

    static lemma ProgressMoves(was: seq<PriorFile>, now: seq<PriorFile>, index: nat, applied: seq<nat>,
                               item: PriorFile, ok: bool)
      requires Progress(was, now, index, applied) && index < |now| && !now[index].preserve
      requires item.(moved := now[index].moved, installed := now[index].installed) == now[index]
      requires ok ==> Turned(item)
      ensures Progress(was, now[index := item], if ok then index + 1 else index, applied + [index])
    {
    }

    /** What rolling back needs to know of the items. */
    static lemma ProgressStops(d0: Disk, stage: nat, paths: seq<string>, was: seq<PriorFile>, now: seq<PriorFile>,
                               index: nat, applied: seq<nat>)
      requires AllReady(d0, stage, paths, was) && Progress(was, now, index, applied)
      ensures |now| == |paths|
      ensures forall j | 0 <= j < |paths| :: now[j].path == Home(paths[j]) && now[j].backup == Prior(stage, paths[j])
      ensures forall j | 0 <= j < |now| && j !in applied :: !now[j].moved && !now[j].installed
    {
    }

    static lemma ProgressEnds(d0: Disk, d: Disk, stage: nat, paths: seq<string>, was: seq<PriorFile>,
                              now: seq<PriorFile>,
                              applied: seq<nat>)
      requires AllReady(d0, stage, paths, was) && Progress(was, now, |paths|, applied)
      requires Consistent(d0, d, stage, paths, now)
      ensures AllFinished(d0, d, stage, paths, was)
    {
    }

    static lemma ApplyBegins(d0: Disk, stage: nat, paths: seq<string>, items: seq<PriorFile>)
      requires AllReady(d0, stage, paths, items) && forall p | p in paths :: Prior(stage, p) !in d0
      ensures Consistent(d0, d0, stage, paths, items) && Progress(items, items, 0, [])
    {
    }

    /** Indices recorded so far: all below the bound and none twice. */
    static ghost predicate AppliedBelow(applied: seq<nat>, bound: nat) {
      forall k | 0 <= k < |applied| :: applied[k] < bound && applied[k] !in applied[..k]
    }

    static lemma AppliedWeaken(applied: seq<nat>, bound: nat)
      requires AppliedBelow(applied, bound)
      ensures AppliedBelow(applied, bound + 1)
    {
    }

    static lemma AppliedAppend(applied: seq<nat>, bound: nat)
      requires AppliedBelow(applied, bound)
      ensures AppliedBelow(applied + [bound], bound + 1)
    {
    }

    // ---- Reading the home -------------------------------------------------------------------------

    /** Checks a decoded manifest in whatever order its entries come. */
    method CheckManifest(m: Files) returns (ok: bool)
      ensures ok <==> ManifestAccepted(f, m)
    {
      hide ValidPath, HexDigest, ManifestAccepted, Checked;
      CheckBegins(f, m);
      if |m| > MAX_FILES { return false; }
      var seen: set<string> := {};
      var remaining := m.Keys;
      assert m.Keys - remaining == {};
      while remaining != {}
        invariant remaining <= m.Keys
        invariant Checked(f, m, m.Keys - remaining, seen)
        decreases remaining
      {
        var path :| path in remaining;
        NextEntry(f, m, m.Keys - remaining, seen, path);
        if !ValidPath(f, path) { return false; }
        if m[path] != "" && !HexDigest(m[path]) { return false; }
        if f.fold(path) in seen { return false; }
        seen := seen + {f.fold(path)};
        assert m.Keys - (remaining - {path}) == m.Keys - remaining + {path};
        remaining := remaining - {path};
      }
      assert m.Keys - {} == m.Keys;
      CheckEnds(f, m, seen);
      return true;
    }

    method PreviousProjection() returns (r: Result<Files, Error>)
      modifies fs`calls
      ensures fs.calls >= old(fs.calls)
      ensures r.Ok? ==> Previous(f, fs.disk) == Some(r.value) && ManifestAccepted(f, r.value)
      ensures r.Err? ==> r.error == ProjectionFailed
                         && (Previous(f, fs.disk).None? || !fs.Undisturbed(old(fs.calls), fs.calls))
    {
      hide ValidPath;
      var read := fs.ReadFile(Home(MANIFEST));
      if read.Unreadable? { return Err(ProjectionFailed); }
      if read.Missing? { return Ok(map[]); }
      var m := Parsed(f, read.text);
      if m.None? { return Err(ProjectionFailed); }
      var ok := CheckManifest(m.value);
      return if ok then Ok(m.value) else Err(ProjectionFailed);
    }

    /** Reads one path of the home: its content, or that it is missing. */
    method ReadTarget(p: string) returns (r: Result<Option<string>, Error>)
      modifies fs`calls
      ensures fs.calls >= old(fs.calls)
      ensures r.Ok? ==> r.value == At(fs.disk, Home(p))
      ensures r.Err? ==> r.error == ProjectionFailed && !fs.Undisturbed(old(fs.calls), fs.calls)
    {
      var ok := fs.Check();
      if !ok { return Err(ProjectionFailed); }
      var present := fs.Stat(Home(p));
      if present.None? { return Err(ProjectionFailed); }
      if !present.value { return Ok(None); }
      var read := fs.ReadFile(Home(p));
      if !read.Content? { return Err(ProjectionFailed); }
      return Ok(Some(read.text));
    }

    // ---- Preview ----------------------------------------------------------------------------------

    /** The conflicts a projection would preserve, found without changing anything. */
    method Preview(files: Files) returns (r: Result<Plan, Error>)
      modifies fs`calls
      ensures fs.calls >= old(fs.calls)
      ensures r.Ok? ==> FilesValid(f, files) && Previous(f, fs.disk).Some?
      ensures r.Ok? ==> r.value == Plan(FilesDigest(f, files), SortedKeys(files.Keys),
                                        Conflicts(f, fs.disk, Previous(f, fs.disk).value, files))
      ensures r.Err? ==> !FilesValid(f, files) || Previous(f, fs.disk).None?
                         || !fs.Undisturbed(old(fs.calls), fs.calls)
      ensures r == Err(Invalid) ==> !FilesValid(f, files)
      ensures r.Err? ==> r.error == Invalid || r.error == ProjectionFailed
    {
      hide FilesValid, Previous, ManifestAccepted;
      if fs.cancelled(fs.calls) { return Err(ProjectionFailed); }
      var ok := ValidateFiles(f, files);
      if !ok { return Err(Invalid); }
      ok := fs.Check();
      if !ok { return Err(ProjectionFailed); }
      var read := PreviousProjection();
      if read.Err? { return Err(ProjectionFailed); }
      var found := FindConflicts(read.value, files);
      if found.Err? { return Err(ProjectionFailed); }
      var digest := DigestFiles(f, files);
      var paths := SortedPaths(files.Keys);
      return Ok(Plan(digest, paths, found.value));
    }

    method FindConflicts(previous: Files, files: Files) returns (r: Result<seq<Change>, Error>)
      modifies fs`calls
      ensures fs.calls >= old(fs.calls)
      ensures r.Ok? ==> r.value == Conflicts(f, fs.disk, previous, files)
      ensures r.Err? ==> !fs.Undisturbed(old(fs.calls), fs.calls)
    {
      hide CollectedUpTo, ChangesAt, Increasing, ConflictPaths, SortedKeys;
      var paths := SortedPaths(files.Keys + previous.Keys);
      var conflicts: seq<Change> := [];
      ghost var wanted := ConflictPaths(f, fs.disk, previous, files);
      ghost var found: seq<string> := [];
      CollectNothing(wanted, paths, files);
      for i := 0 to |paths|
        invariant fs.calls >= old(fs.calls)
        invariant CollectedUpTo(wanted, paths, i, found) && conflicts == ChangesAt(files, found)
      {
        if fs.cancelled(fs.calls) { return Err(ProjectionFailed); }
        InOrder(paths, files.Keys + previous.Keys, i);
        var conflict := IsConflict(previous, files, paths[i]);
        if conflict.Err? { return Err(ProjectionFailed); }
        CollectNext(wanted, paths, i, found);
        if conflict.value {
          ChangesAtAppend(files, found, paths[i]);
          conflicts := conflicts + [Change(paths[i], if paths[i] in files then Modified else Removed)];
          found := found + [paths[i]];
        }
      }
      WantedInOrder(f, fs.disk, previous, files, paths);
      CollectAll(wanted, paths, found);
      return Ok(conflicts);
    }

    static lemma WantedInOrder(f: Foreign, d: Disk, previous: Files, files: Files, paths: seq<string>)
      requires files.Keys + previous.Keys <= Elements(paths)
      ensures ConflictPaths(f, d, previous, files) <= Elements(paths)
    {
    }

    /** One turn of the preview loop. */
    method IsConflict(previous: Files, files: Files, path: string) returns (r: Result<bool, Error>)
      requires path in files.Keys + previous.Keys
      modifies fs`calls
      ensures fs.calls >= old(fs.calls)
      ensures r.Ok? ==> (r.value <==> path in ConflictPaths(f, fs.disk, previous, files))
      ensures r.Err? ==> !fs.Undisturbed(old(fs.calls), fs.calls)
    {
      var read := ReadTarget(path);
      if read.Err? { return Err(ProjectionFailed); }
      if read.value.None? { return Ok(false); }
      var content := read.value.value;
      if path in files && content == files[path] { return Ok(false); }
      if path in previous && previous[path] != "" && f.sha(content) == previous[path] { return Ok(false); }
      return Ok(true);
    }

    static lemma CollectNothing(wanted: set<string>, ordered: seq<string>, files: Files)
      ensures CollectedUpTo(wanted, ordered, 0, []) && ChangesAt(files, []) == []
    {
    }

    static lemma InOrder(paths: seq<string>, keys: set<string>, i: nat)
      requires Elements(paths) == keys && i < |paths|
      ensures paths[i] in keys
    {
    }

    // ---- Project ----------------------------------------------------------------------------------

    ghost function Inspected(d: Disk, previous: Files, files: Files, p: string): PriorFile {
      PriorFile(Home(p), Home(""), Home(p) in d, p in files || p == MANIFEST, false, false,
                p != MANIFEST && Edited(f, d, previous, files, p))
    }

    ghost predicate AllInspected(d: Disk, previous: Files, files: Files, paths: seq<string>, items: seq<PriorFile>) {
      |items| == |paths| && forall j | 0 <= j < |paths| :: items[j] == Inspected(d, previous, files, paths[j])
    }

    /** Manifest entries left after the edited ones among the first paths are dropped. */
    ghost function Entries(d: Disk, previous: Files, files: Files, dropped: set<string>): Files {
      map p | p in files && !(p in dropped && Edited(f, d, previous, files, p)) :: f.sha(files[p])
    }

    /** Decides, path by path, what exists, what to install and what to preserve. */
    method Inspect(previous: Files, files: Files, paths: seq<string>)
      returns (ok: bool, prior: array<PriorFile>, conflicts: seq<Change>, entries: Files)
      requires paths == SortedKeys(files.Keys + previous.Keys + {MANIFEST})
      requires FilesValid(f, files) && ManifestAccepted(f, previous)
      modifies fs`calls
      ensures fresh(prior) && prior.Length == |paths| && fs.calls >= old(fs.calls)
      ensures ok ==> AllInspected(fs.disk, previous, files, paths, prior[..])
      ensures ok ==> conflicts == Conflicts(f, fs.disk, previous, files)
      ensures ok ==> entries == ManifestAfter(f, fs.disk, previous, files)
      ensures ok || !fs.Undisturbed(old(fs.calls), fs.calls)
    {
      hide FilesValid, ManifestAccepted, ChangesAt, Increasing, ConflictPaths, AllInspected, Entries, Edited;
      prior := new PriorFile[|paths|];
      conflicts, entries := [], map p | p in files :: f.sha(files[p]);
      ManifestNeverConflicts(f, fs.disk, previous, files);
      AllEntries(fs.disk, previous, files, paths);
      ghost var found;
      ok, conflicts, entries, found := InspectAll(previous, files, paths, prior, conflicts, entries);
      if ok {
        WantedInOrder(f, fs.disk, previous, files, paths);
        CollectAll(ConflictPaths(f, fs.disk, previous, files), paths, found);
      }
    }

    /** The inspection loop. */
    method InspectAll(previous: Files, files: Files, paths: seq<string>, prior: array<PriorFile>,
                      conflicts: seq<Change>, entries: Files)
      returns (ok: bool, conflicts': seq<Change>, entries': Files, ghost found: seq<string>)
      requires |paths| == prior.Length && Increasing(paths)
      requires Elements(paths) == files.Keys + previous.Keys + {MANIFEST}
      requires MANIFEST !in files && MANIFEST !in previous
      requires conflicts == [] && entries == Entries(fs.disk, previous, files, Elements(paths[..0]))
      requires MANIFEST !in ConflictPaths(f, fs.disk, previous, files)
      modifies fs`calls, prior
      ensures fs.calls >= old(fs.calls)
      ensures ok ==> AllInspected(fs.disk, previous, files, paths, prior[..])
      ensures ok ==> CollectedUpTo(ConflictPaths(f, fs.disk, previous, files), paths, |paths|, found)
      ensures ok ==> conflicts' == ChangesAt(files, found)
      ensures ok ==> entries' == Entries(fs.disk, previous, files, Elements(paths[..|paths|]))
      ensures ok || !fs.Undisturbed(old(fs.calls), fs.calls)
    {
      hide CollectedUpTo, ChangesAt, Increasing, ConflictPaths, Inspected, Entries, Edited;
      conflicts', entries', found := conflicts, entries, [];
      ghost var wanted := ConflictPaths(f, fs.disk, previous, files);
      CollectNothing(wanted, paths, files);
      for i := 0 to |paths|
        invariant fs.calls >= old(fs.calls)
        invariant forall j | 0 <= j < i :: prior[j] == Inspected(fs.disk, previous, files, paths[j])
        invariant CollectedUpTo(wanted, paths, i, found) && conflicts' == ChangesAt(files, found)
        invariant entries' == Entries(fs.disk, previous, files, Elements(paths[..i]))
      {
        ok, conflicts', entries' := InspectOne(previous, files, paths, i, prior, conflicts', entries', found);
        if !ok { return; }
        CollectNext(wanted, paths, i, found);
        found := if paths[i] in wanted then found + [paths[i]] else found;
      }
      ok := true;
    }

    lemma AllEntries(d: Disk, previous: Files, files: Files, paths: seq<string>)
      requires files.Keys <= Elements(paths)
      ensures (map p | p in files :: f.sha(files[p])) == Entries(d, previous, files, Elements(paths[..0]))
      ensures Entries(d, previous, files, Elements(paths[..|paths|])) == ManifestAfter(f, d, previous, files)
    {
    }

    lemma NextEntries(d: Disk, previous: Files, files: Files, paths: seq<string>, i: nat)
      requires i < |paths| && MANIFEST !in files
      ensures Entries(d, previous, files, Elements(paths[..i + 1]))
              == if Edited(f, d, previous, files, paths[i]) && paths[i] != MANIFEST
                 then Entries(d, previous, files, Elements(paths[..i])) - {paths[i]}
                 else Entries(d, previous, files, Elements(paths[..i]))
    {
    }

    /** One turn of the inspection loop. */
    method InspectOne(previous: Files, files: Files, paths: seq<string>, i: nat, prior: array<PriorFile>,
                      conflicts: seq<Change>, entries: Files, ghost found: seq<string>)
      returns (ok: bool, conflicts': seq<Change>, entries': Files)
      requires i < |paths| == prior.Length && Elements(paths) == files.Keys + previous.Keys + {MANIFEST}
      requires conflicts == ChangesAt(files, found)
      requires entries == Entries(fs.disk, previous, files, Elements(paths[..i]))
      requires MANIFEST !in ConflictPaths(f, fs.disk, previous, files)
      requires MANIFEST !in files && MANIFEST !in previous
      modifies fs`calls, prior
      ensures fs.calls >= old(fs.calls)
      ensures ok ==> forall j | 0 <= j < prior.Length ::
                prior[j] == if j == i then Inspected(fs.disk, previous, files, paths[i]) else old(prior[j])
      ensures ok ==> conflicts' == ChangesAt(files, if paths[i] in ConflictPaths(f, fs.disk, previous, files)
                                                    then found + [paths[i]] else found)
      ensures ok ==> entries' == Entries(fs.disk, previous, files, Elements(paths[..i + 1]))
      ensures ok || !fs.Undisturbed(old(fs.calls), fs.calls)
    {
      hide ChangesAt, Entries;
      conflicts', entries' := conflicts, entries;
      var path := paths[i];
      assert path in files.Keys + previous.Keys + {MANIFEST} by { assert path in Elements(paths); }
      NextEntries(fs.disk, previous, files, paths, i);
      ChangesAtAppend(files, found, path);
      var read := ReadTarget(path);
      if read.Err? { return false, conflicts', entries'; }
      var item := PriorFile(Home(path), Home(""), false, path in files || path == MANIFEST, false, false, false);
      if read.value.Some? {
        var content := read.value.value;
        item := item.(present := true);
        if path != MANIFEST
           && (path !in previous || previous[path] == "" || f.sha(content) != previous[path])
           && (path !in files || content != files[path]) {
          item := item.(preserve := true);
          entries' := entries - {path};
          conflicts' := conflicts + [Change(path, if path in files then Modified else Removed)];
        }
      }
      prior[i] := item;
      ok := true;
    }

    static ghost predicate WithBackups(stage: nat, paths: seq<string>, was: seq<PriorFile>, now: seq<PriorFile>) {
      |was| == |now| == |paths| && forall j | 0 <= j < |paths| :: now[j] == was[j].(backup := Prior(stage, paths[j]))
    }

    method SetBackups(stage: nat, paths: seq<string>, prior: array<PriorFile>)
      requires |paths| == prior.Length
      modifies prior
      ensures WithBackups(stage, paths, old(prior[..]), prior[..])
    {
      for j := 0 to prior.Length
        invariant forall i | 0 <= i < prior.Length ::
                    prior[i] == if i < j then old(prior[i]).(backup := Prior(stage, paths[i])) else old(prior[i])
      {
        prior[j] := prior[j].(backup := Prior(stage, paths[j]));
      }
    }

    /** d' is d with the given contents staged. */
    static ghost predicate StagedTo(d: Disk, d': Disk, stage: nat, contents: Files) {
      forall l ::
        At(d', l) == if l.Next? && l.stage == stage && l.path in contents then Some(contents[l.path]) else At(d, l)
    }

    /** Only staged entries of this stage differ. */
    static ghost predicate StageOnly(d: Disk, d': Disk, stage: nat) {
      forall l: Location | l.Home? || l.stage != stage :: At(d', l) == At(d, l)
    }

    method StageOne(stage: nat, path: string, content: string) returns (ok: bool)
      requires fs.Valid() && stage < fs.stages
      modifies fs`disk, fs`calls
      ensures fs.Valid() && fs.calls >= old(fs.calls)
      ensures fs.disk == if ok then old(fs.disk)[Next(stage, path) := content] else old(fs.disk)
      ensures ok || !fs.Undisturbed(old(fs.calls), fs.calls)
    {
      ok := fs.Check();
      if !ok { return; }
      ok := fs.WriteFile(Next(stage, path), content);
    }

    /** Writes every new file and the new manifest under the staging directory. */
    method StageFiles(stage: nat, files: Files, manifest: string) returns (ok: bool)
      requires fs.Valid() && stage < fs.stages && MANIFEST !in files
      modifies fs`disk, fs`calls
      ensures fs.Valid() && fs.calls >= old(fs.calls) && StageOnly(old(fs.disk), fs.disk, stage)
      ensures ok ==> StagedTo(old(fs.disk), fs.disk, stage, files[MANIFEST := manifest])
      ensures ok || !fs.Undisturbed(old(fs.calls), fs.calls)
    {
      hide SortedKeys, StagedTo;
      var paths := SortedPaths(files.Keys);
      ghost var d := fs.disk;
      StagedNothing(d, stage, files);
      assert Elements(paths[..0]) == {};
      for i := 0 to |paths|
        invariant fs.Valid() && fs.calls >= old(fs.calls)
        invariant StagedTo(d, fs.disk, stage, Sub(files, Elements(paths[..i])))
      {
        StagedIsStageOnly(d, fs.disk, stage, Sub(files, Elements(paths[..i])));
        InOrder(paths, files.Keys, i);
        if fs.cancelled(fs.calls) { return false; }
        StagedNext(d, fs.disk, stage, files, paths, i);
        ok := StageOne(stage, paths[i], files[paths[i]]);
        if !ok { return; }
      }
      assert paths[..|paths|] == paths;
      assert Sub(files, files.Keys) == files;
      StagedIsStageOnly(d, fs.disk, stage, files);
      StagedMore(d, fs.disk, stage, files, MANIFEST, manifest);
      ok := StageOne(stage, MANIFEST, manifest);
      if ok { StagedIsStageOnly(d, fs.disk, stage, files[MANIFEST := manifest]); }
    }

    static ghost function Sub(files: Files, keys: set<string>): Files {
      map p | p in files && p in keys :: files[p]
    }

    static lemma StagedNothing(d: Disk, stage: nat, files: Files)
      ensures Sub(files, {}) == map[] && StagedTo(d, d, stage, map[])
    {
    }

    static lemma StagedIsStageOnly(d: Disk, d': Disk, stage: nat, contents: Files)
      requires StagedTo(d, d', stage, contents)
      ensures StageOnly(d, d', stage)
    {
    }

    static lemma StagedMore(d: Disk, d': Disk, stage: nat, contents: Files, p: string, content: string)
      requires StagedTo(d, d', stage, contents)
      ensures StagedTo(d, d'[Next(stage, p) := content], stage, contents[p := content])
    {
    }

    static lemma StagedNext(d: Disk, d': Disk, stage: nat, files: Files, paths: seq<string>, i: nat)
      requires i < |paths| && paths[i] in files
      requires StagedTo(d, d', stage, Sub(files, Elements(paths[..i])))
      ensures StagedTo(d, d'[Next(stage, paths[i]) := files[paths[i]]], stage, Sub(files, Elements(paths[..i + 1])))
    {
    }

    /** What an unsuccessful projection may leave: the home as it was unless the stage is kept, and
        even then every old file at its own path or in the kept backups. */
    static ghost predicate NothingLost(d: Disk, d': Disk, stage: nat, affected: set<string>, kept: bool) {
      && (!kept ==> SameHome(d, d'))
      && (forall p | Home(p) in d :: At(d', Home(p)) == At(d, Home(p))
                                     || (kept && At(d', Prior(stage, p)) == At(d, Home(p))))
      && (forall p | p !in affected :: At(d', Home(p)) == At(d, Home(p)))
    }

    /** Nothing is left of the stages made since there were so many. */
    static ghost predicate NoLeftovers(d: Disk, stages: nat) {
      forall l | l in d :: l.Home? || l.stage < stages
    }

    /** Nothing is left of the stages made since, unless one was kept or the last call failed. */
    ghost predicate Cleaned(stages: nat, kept: bool)
      reads fs
    {
      kept || NoLeftovers(fs.disk, stages) || (fs.calls > 0 && fs.fails(fs.calls - 1))
    }

    /** Stages of earlier projections, and the backups kept in them, are left alone. */
    static ghost predicate OldStagesKept(d: Disk, d': Disk, stages: nat) {
      forall l: Location | !l.Home? && l.stage < stages :: At(d', l) == At(d, l)
    }

    /** The items as inspected, with their backups in the stage. */
    ghost predicate Planned(d: Disk, stage: nat, previous: Files, files: Files, paths: seq<string>,
                            items: seq<PriorFile>) {
      |items| == |paths|
      && forall j | 0 <= j < |paths| ::
           items[j] == Inspected(d, previous, files, paths[j]).(backup := Prior(stage, paths[j]))
    }

    lemma BackupsPlanned(d: Disk, stage: nat, previous: Files, files: Files, paths: seq<string>,
                         was: seq<PriorFile>, now: seq<PriorFile>)
      requires AllInspected(d, previous, files, paths, was) && WithBackups(stage, paths, was, now)
      ensures Planned(d, stage, previous, files, paths, now)
    {
    }

    lemma ReadyAfterStaging(d: Disk, d0: Disk, stage: nat, previous: Files, files: Files,
                            manifest: string, paths: seq<string>, items: seq<PriorFile>)
      requires Elements(paths) == files.Keys + previous.Keys + {MANIFEST}
      requires StagedTo(d, d0, stage, files[MANIFEST := manifest])
      requires forall l | l in d :: l.Home? || l.stage < stage
      requires Planned(d, stage, previous, files, paths, items)
      ensures AllReady(d0, stage, paths, items)
      ensures forall p | p in paths :: Prior(stage, p) !in d0
    {
    }

    /** All turns finished: the home is the projection. */
    lemma AppliedIsProjected(d: Disk, d0: Disk, d1: Disk, stage: nat, previous: Files, files: Files,
                             paths: seq<string>, items: seq<PriorFile>)
      requires Elements(paths) == files.Keys + previous.Keys + {MANIFEST}
      requires MANIFEST !in files && MANIFEST !in previous
      requires StagedTo(d, d0, stage, files[MANIFEST := f.encodeManifest(ManifestAfter(f, d, previous, files))])
      requires Untouched(d0, d1, stage, Elements(paths))
      requires AllFinished(d0, d1, stage, paths, items) && Planned(d, stage, previous, files, paths, items)
      ensures Projected(f, d, previous, files, d1)
    {
      hide ManifestAfter, HomeAfter, Finished, Inspected, StagedTo, Untouched;
      forall p ensures At(d1, Home(p)) == HomeAfter(f, d, previous, files, p) {
        if p in Elements(paths) {
          var j :| 0 <= j < |paths| && paths[j] == p;
          AppliedAt(d, d0, d1, stage, previous, files, p, items[j]);
        } else {
          UnaffectedAt(d, d0, d1, stage, previous, files, Elements(paths), p);
        }
      }
    }

    lemma AppliedAt(d: Disk, d0: Disk, d1: Disk, stage: nat, previous: Files, files: Files, p: string, item: PriorFile)
      requires p in files.Keys + previous.Keys + {MANIFEST} && MANIFEST !in files && MANIFEST !in previous
      requires StagedTo(d, d0, stage, files[MANIFEST := f.encodeManifest(ManifestAfter(f, d, previous, files))])
      requires Finished(d0, d1, stage, p, item)
      requires item.preserve == Inspected(d, previous, files, p).preserve
      requires item.install == Inspected(d, previous, files, p).install
      ensures At(d1, Home(p)) == HomeAfter(f, d, previous, files, p)
    {
    }

    lemma UnaffectedAt(d: Disk, d0: Disk, d1: Disk, stage: nat, previous: Files, files: Files, paths: set<string>,
                       p: string)
      requires paths == files.Keys + previous.Keys + {MANIFEST} && p !in paths
      requires StagedTo(d, d0, stage, files[MANIFEST := f.encodeManifest(ManifestAfter(f, d, previous, files))])
      requires Untouched(d0, d1, stage, paths)
      ensures At(d1, Home(p)) == HomeAfter(f, d, previous, files, p)
    {
    }

    static lemma RolledBackLosesNothing(d: Disk, d0: Disk, d1: Disk, stage: nat, paths: seq<string>, restored: bool)
      requires StageOnly(d, d0, stage) && Untouched(d0, d1, stage, Elements(paths))
      requires AllUndone(d0, d1, stage, paths, restored)
      ensures NothingLost(d, d1, stage, Elements(paths), !restored)
    {
    }

    static lemma StageRemoved(d: Disk, d1: Disk, d2: Disk, stage: nat)
      requires forall l: Location | l.Home? || l.stage != stage :: At(d2, l) == At(d1, l)
      ensures SameHome(d1, d2)
      ensures OldStagesKept(d, d1, stage) ==> OldStagesKept(d, d2, stage)
    {
    }

    static lemma OldStagesFrame(d: Disk, d0: Disk, d1: Disk, stage: nat, paths: set<string>)
      requires StageOnly(d, d0, stage) && Untouched(d0, d1, stage, paths)
      ensures OldStagesKept(d, d1, stage)
    {
    }

    static lemma StillProjected(f: Foreign, d: Disk, previous: Files, files: Files, d1: Disk, d2: Disk)
      requires Projected(f, d, previous, files, d1) && SameHome(d1, d2)
      ensures Projected(f, d, previous, files, d2)
    {
    }

    static lemma StillNothingLost(d: Disk, d1: Disk, d2: Disk, stage: nat, affected: set<string>)
      requires NothingLost(d, d1, stage, affected, false) && SameHome(d1, d2)
      ensures NothingLost(d, d2, stage, affected, false)
    {
    }

    /** Removing the only new stage leaves nothing of it. */
    static lemma StageIsGone(d: Disk, d': Disk, stage: nat)
      requires forall l | l in d :: l.Home? || l.stage <= stage
      requires forall l :: At(d', l) == if l.Home? || l.stage != stage then At(d, l) else None
      ensures NoLeftovers(d', stage)
    {
    }

    /** Removes the newest stage, as the program does on every way out that does not keep it. */
    method CleanUp(stage: nat, ghost d: Disk)
      requires fs.Valid() && fs.stages == stage + 1
      modifies fs`disk, fs`calls
      ensures fs.Valid() && fs.calls == old(fs.calls) + 1
      ensures SameHome(old(fs.disk), fs.disk)
      ensures OldStagesKept(d, old(fs.disk), stage) ==> OldStagesKept(d, fs.disk, stage)
      ensures Cleaned(stage, false)
    {
      hide SameHome, OldStagesKept, NoLeftovers;
      ghost var d1 := fs.disk;
      fs.RemoveAll(stage);
      StageRemoved(d, d1, fs.disk, stage);
      if !fs.fails(fs.calls - 1) { StageIsGone(d1, fs.disk, stage); }
    }

    /** Stages, applies and cleans up. The staging directory is kept only when rollback reported an
        item it could not restore. */
    method Commit(previous: Files, files: Files, paths: seq<string>, prior: array<PriorFile>, entries: Files)
      returns (ok: bool, kept: bool)
      requires fs.Valid() && prior.Length == |paths| && Distinct(paths)
      requires Elements(paths) == files.Keys + previous.Keys + {MANIFEST}
      requires MANIFEST !in files && MANIFEST !in previous
      requires AllInspected(fs.disk, previous, files, paths, prior[..])
      requires entries == ManifestAfter(f, fs.disk, previous, files)
      modifies fs`disk, fs`calls, fs`stages, prior
      ensures fs.Valid() && fs.calls >= old(fs.calls) && fs.stages >= old(fs.stages)
      ensures ok ==> !kept && Projected(f, old(fs.disk), previous, files, fs.disk)
      ensures !ok ==> NothingLost(old(fs.disk), fs.disk, old(fs.stages), Elements(paths), kept)
      ensures OldStagesKept(old(fs.disk), fs.disk, old(fs.stages))
      ensures Cleaned(old(fs.stages), kept)
      ensures ok || !fs.Undisturbed(old(fs.calls), fs.calls)
    {
      hide StagedTo, StageOnly, Projected, ManifestAfter, SameHome, NothingLost, OldStagesKept, NoLeftovers,
           AllInspected, Planned, WithBackups, Cleaned;
      kept := false;
      ghost var d := fs.disk;
      NothingHappened(d, fs.stages, Elements(paths));
      var made := fs.MkdirTemp();
      if made.None? {
        NothingToClean(old(fs.stages));
        return false, false;
      }
      var stage := made.value;
      ghost var inspected := prior[..];
      SetBackups(stage, paths, prior);
      BackupsPlanned(d, stage, previous, files, paths, inspected, prior[..]);
      ok := StageFiles(stage, files, f.encodeManifest(entries));
      ghost var d0 := fs.disk;
      if !ok {
        NothingHappened(d, stage, Elements(paths));
        StageOnlyIsSafe(d, d0, stage, Elements(paths));
        CleanUp(stage, d);
        StillNothingLost(d, d0, fs.disk, stage, Elements(paths));
        return false, false;
      }
      ok, kept := ApplyStaged(stage, previous, files, paths, prior, d);
    }

    /** Applies what has been staged, and removes the stage unless an item could not be restored. */
    method ApplyStaged(stage: nat, previous: Files, files: Files, paths: seq<string>, prior: array<PriorFile>,
                       ghost d: Disk)
      returns (ok: bool, kept: bool)
      requires fs.Valid() && fs.stages == stage + 1 && prior.Length == |paths| && Distinct(paths)
      requires Elements(paths) == files.Keys + previous.Keys + {MANIFEST}
      requires MANIFEST !in files && MANIFEST !in previous && forall l | l in d :: l.Home? || l.stage < stage
      requires Planned(d, stage, previous, files, paths, prior[..])
      requires StagedTo(d, fs.disk, stage, files[MANIFEST := f.encodeManifest(ManifestAfter(f, d, previous, files))])
      requires StageOnly(d, fs.disk, stage)
      modifies fs`disk, fs`calls, prior
      ensures fs.Valid() && fs.calls >= old(fs.calls)
      ensures ok ==> !kept && Projected(f, d, previous, files, fs.disk)
      ensures !ok ==> NothingLost(d, fs.disk, stage, Elements(paths), kept)
      ensures OldStagesKept(d, fs.disk, stage)
      ensures Cleaned(stage, kept)
      ensures ok || !fs.Undisturbed(old(fs.calls), fs.calls)
    {
      hide Untouched, AllUndone, AllFinished, AllReady, Planned, StagedTo, StageOnly, Projected, ManifestAfter,
           SameHome, NothingLost, OldStagesKept, NoLeftovers, Cleaned;
      ghost var d0 := fs.disk;
      ReadyAfterStaging(d, d0, stage, previous, files, f.encodeManifest(ManifestAfter(f, d, previous, files)), paths,
          prior[..]);
      ghost var items := prior[..];
      var restored;
      ok, restored := Apply(prior, d0, stage, paths);
      kept := !ok && !restored;
      ghost var d1 := fs.disk;
      OldStagesFrame(d, d0, d1, stage, Elements(paths));
      if ok {
        AppliedIsProjected(d, d0, d1, stage, previous, files, paths, items);
      } else {
        RolledBackLosesNothing(d, d0, d1, stage, paths, restored);
      }
      if kept {
        NothingToClean(stage);
      } else {
        CleanUp(stage, d);
        if ok {
          StillProjected(f, d, previous, files, d1, fs.disk);
        } else {
          StillNothingLost(d, d1, fs.disk, stage, Elements(paths));
        }
      }
    }

    lemma NothingToClean(stages: nat)
      ensures Cleaned(stages, true) && (NoLeftovers(fs.disk, stages) ==> Cleaned(stages, false))
    {
    }

    static lemma NothingHappened(d: Disk, stage: nat, affected: set<string>)
      ensures NothingLost(d, d, stage, affected, false) && OldStagesKept(d, d, stage) && SameHome(d, d)
      ensures (forall l | l in d :: l.Home? || l.stage < stage) ==> NoLeftovers(d, stage)
    {
    }

    static lemma StageOnlyIsSafe(d: Disk, d0: Disk, stage: nat, affected: set<string>)
      requires StageOnly(d, d0, stage)
      ensures NothingLost(d, d0, stage, affected, false) && OldStagesKept(d, d0, stage)
    {
    }

    /** Everything `project` does before it first writes: validation, reading the manifest,
        inspecting every affected path and comparing the conflicts with the reviewed ones. */
    method Examine(files: Files, expected: Option<seq<Change>>)
      returns (error: Option<Error>, previous: Files, paths: seq<string>, prior: array<PriorFile>, entries: Files)
      modifies fs`calls
      ensures fs.calls >= old(fs.calls) && fresh(prior)
      ensures error.None? ==> FilesValid(f, files) && Previous(f, fs.disk) == Some(previous)
                              && ManifestAccepted(f, previous)
      ensures error.None? ==> paths == SortedKeys(files.Keys + previous.Keys + {MANIFEST}) && prior.Length == |paths|
      ensures error.None? ==> AllInspected(fs.disk, previous, files, paths, prior[..])
      ensures error.None? ==> entries == ManifestAfter(f, fs.disk, previous, files)
      ensures error.None? && expected.Some?
              ==> multiset(Conflicts(f, fs.disk, previous, files)) == multiset(expected.value)
      ensures error.Some? ==> Refused(fs.disk, files, expected, error.value)
                              || (error.value == ProjectionFailed && !fs.Undisturbed(old(fs.calls), fs.calls))
    {
      hide FilesValid, ManifestAccepted, Previous, Conflicts, AllInspected, ManifestAfter, Increasing, SortedKeys;
      previous, paths, entries := map[], [], map[];
      prior := new PriorFile[0];
      if fs.cancelled(fs.calls) { return Some(ProjectionFailed), previous, paths, prior, entries; }
      var ok := ValidateFiles(f, files);
      if !ok { return Some(Invalid), previous, paths, prior, entries; }
      ok := fs.Check();
      if !ok { return Some(ProjectionFailed), previous, paths, prior, entries; }
      var read := PreviousProjection();
      if read.Err? { return Some(ProjectionFailed), previous, paths, prior, entries; }
      previous := read.value;
      paths := SortedPaths(files.Keys + previous.Keys + {MANIFEST});
      var conflicts;
      ok, prior, conflicts, entries := Inspect(previous, files, paths);
      if !ok { return Some(ProjectionFailed), previous, paths, prior, entries; }
      if expected.Some? {
        var same := SameChanges(conflicts, expected.value);
        if !same { return Some(Invalid), previous, paths, prior, entries; }
      }
      error := None;
    }

    /** Refusals decided by the files, the review and the home alone. */
    ghost predicate Refused(d: Disk, files: Files, expected: Option<seq<Change>>, error: Error) {
      match error
      case Invalid =>
        || !FilesValid(f, files)
        || (expected.Some? && Previous(f, d).Some?
            && multiset(Conflicts(f, d, Previous(f, d).value, files)) != multiset(expected.value))
      case ProjectionFailed => Previous(f, d).None?
      case _ => false
    }

    /** Project, or ProjectReviewed when the conflicts that were reviewed are given.

        Success means the home is the projection, computed from the home and manifest on entry, and
        only if the conflicts found are the reviewed ones. Failure loses nothing, and changes nothing
        unless rollback itself failed; `kept` tells whether the staging directory was left in place. */
    method Project(files: Files, expected: Option<seq<Change>>) returns (r: Result<Report, Error>, kept: bool)
      requires fs.Valid()
      modifies fs`disk, fs`calls, fs`stages
      ensures fs.Valid() && fs.calls >= old(fs.calls) && fs.stages >= old(fs.stages)
      ensures r.Ok? ==> FilesValid(f, files) && Previous(f, old(fs.disk)).Some? && !kept
      ensures r.Ok? ==> Projected(f, old(fs.disk), Previous(f, old(fs.disk)).value, files, fs.disk)
      ensures r.Ok? ==> r.value == Report(FilesDigest(f, files), SortedKeys(files.Keys))
      ensures r.Ok? && expected.Some?
              ==> multiset(Conflicts(f, old(fs.disk), Previous(f, old(fs.disk)).value, files))
                  == multiset(expected.value)
      ensures r.Err? ==> NothingLost(old(fs.disk), fs.disk, old(fs.stages), Affected(old(fs.disk), files), kept)
      ensures OldStagesKept(old(fs.disk), fs.disk, old(fs.stages))
      ensures Cleaned(old(fs.stages), kept)
      ensures kept ==> !fs.Undisturbed(old(fs.calls), fs.calls)
      ensures r.Err? ==> Refused(old(fs.disk), files, expected, r.error)
                         || (r.error == ProjectionFailed && !fs.Undisturbed(old(fs.calls), fs.calls))
    {
      hide FilesValid, ManifestAccepted, Previous, Conflicts, NothingLost, Projected, FilesDigest, ManifestAfter,
           Refused,
           NoLeftovers, OldStagesKept, Ordered, SortedKeys, Affected, AllInspected, Cleaned;
      NothingHappened(fs.disk, fs.stages, Affected(fs.disk, files));
      var error, previous, paths, prior, entries := Examine(files, expected);
      if error.Some? {
        NothingToClean(old(fs.stages));
        return Err(error.value), false;
      }
      ManifestNeverConflicts(f, fs.disk, previous, files);
      var ok;
      ok, kept := Commit(previous, files, paths, prior, entries);
      if !ok {
        AffectedPaths(old(fs.disk), files, previous, paths);
        return Err(ProjectionFailed), kept;
      }
      var digest := DigestFiles(f, files);
      var names := SortedPaths(files.Keys);
      return Ok(Report(digest, names)), false;
    }

    lemma AffectedPaths(d: Disk, files: Files, previous: Files, paths: seq<string>)
      requires Previous(f, d) == Some(previous) && Elements(paths) == files.Keys + previous.Keys + {MANIFEST}
      ensures Affected(d, files) == Elements(paths)
    {
    }

    /** The paths a projection may touch. */
    ghost function Affected(d: Disk, files: Files): set<string> {
      files.Keys + {MANIFEST} + match Previous(f, d) case Some(m) => m.Keys case None => {}
    }

    /** Projecting the same files a second time succeeds unless a call fails, and changes nothing. */
    method ProjectTwice(files: Files)
      returns (first: Result<Report, Error>, second: Result<Report, Error>, ghost mid: Disk)
      requires fs.Valid() && f.LawfulHash() && f.LawfulManifest() && Utf8Paths(f, files)
      modifies fs`disk, fs`calls, fs`stages
      ensures fs.Valid() && fs.calls >= old(fs.calls)
      ensures first.Ok? ==> Previous(f, old(fs.disk)).Some?
                            && Projected(f, old(fs.disk), Previous(f, old(fs.disk)).value, files, mid)
      ensures first.Ok? && second.Ok? ==> second.value == first.value && SameHome(mid, fs.disk)
      ensures first.Ok? && second.Err? ==> !fs.Undisturbed(old(fs.calls), fs.calls)
    {
      hide FilesValid, Previous, Projected, FilesDigest, SameHome, NothingLost, ManifestAfter;
      var kept;
      first, kept := Project(files, None);
      mid := fs.disk;
      ghost var d, previous := old(fs.disk), Previous(f, old(fs.disk));
      if first.Ok? {
        ManifestReadsBack(f, d, previous.value, files, mid);
      }
      second, kept := Project(files, None);
      if first.Ok? && second.Ok? {
        ProjectionIsIdempotent(f, d, previous.value, files, mid, fs.disk);
      }
    }
  }
}
