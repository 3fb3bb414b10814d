/** The apply loop of the projector as a transaction over the disk: what moving aside, installing
    and undoing one file keep true of all of them. */
module Transactions {
  import opened Wrappers
  import opened Ordering
  import opened FileSystems

  /** The source's `priorFile`: one affected path and how far its replacement has got. */
  datatype PriorFile = PriorFile(
    path: Location, backup: Location,
    present: bool, install: bool, moved: bool, installed: bool, preserve: bool)

  ghost predicate Distinct(paths: seq<string>) {
    forall i, j | 0 <= i < j < |paths| :: paths[i] != paths[j]
  }

  function Renamed(d: Disk, from: Location, to: Location): Disk
    requires from in d
  {
    (d - {from})[to := d[from]]
  }

  /** How far the file at p has got between d0, the disk when applying began, and d. */
  ghost predicate InFlight(d0: Disk, d: Disk, stage: nat, p: string, item: PriorFile) {
    && At(d, Home(p)) == (if item.installed then At(d0, Next(stage, p))
                          else if item.moved then None else At(d0, Home(p)))
    && At(d, Prior(stage, p)) == (if item.moved then At(d0, Home(p)) else None)
    && At(d, Next(stage, p)) == (if item.installed then None else At(d0, Next(stage, p)))
    && (item.moved ==> Home(p) in d0)
    && (item.installed ==> Next(stage, p) in d0 && (item.moved <==> Home(p) in d0))
  }

  /** Nothing changed but at the given paths, in the home and in this stage. */
  ghost predicate Untouched(d0: Disk, d: Disk, stage: nat, paths: set<string>) {
    forall l: Location | !(l.path in paths && (l.Home? || l.stage == stage)) :: At(d, l) == At(d0, l)
  }

  ghost predicate Consistent(d0: Disk, d: Disk, stage: nat, paths: seq<string>, items: seq<PriorFile>) {
    && |items| == |paths|
    && Untouched(d0, d, stage, Elements(paths))
    && forall j | 0 <= j < |paths| :: InFlight(d0, d, stage, paths[j], items[j])
  }

  /** The home holds at p what it held when applying began. */
  ghost predicate Settled(d0: Disk, d: Disk, p: string) {
    At(d, Home(p)) == At(d0, Home(p))
  }

  /** What p held when applying began is still at p or at its backup path. */
  ghost predicate Recoverable(d0: Disk, d: Disk, stage: nat, p: string) {
    Home(p) in d0 ==> Settled(d0, d, p) || At(d, Prior(stage, p)) == At(d0, Home(p))
  }

  ghost predicate Undone(d0: Disk, d: Disk, stage: nat, p: string, restored: bool) {
    Recoverable(d0, d, stage, p) && (restored ==> Settled(d0, d, p))
  }

  /** Rolling back with the first k applied indices still to be undone. */
  ghost predicate Rolling(d0: Disk, d: Disk, stage: nat, paths: seq<string>, items: seq<PriorFile>,
                          applied: seq<nat>, k: nat, restored: bool)
    requires k <= |applied| && |items| == |paths|
  {
    && Untouched(d0, d, stage, Elements(paths))
    && forall j | 0 <= j < |paths| ::
         if j in applied[..k] then InFlight(d0, d, stage, paths[j], items[j])
         else Undone(d0, d, stage, paths[j], restored)
  }

  /** Only the home entry, the backup and the staged file of p differ. */
  ghost predicate OnlyAt(d: Disk, d': Disk, stage: nat, p: string) {
    Untouched(d, d', stage, {p})
  }

  /** One item advances, the others stay where they are. */
  lemma Advance(d0: Disk, d: Disk, d': Disk, stage: nat, paths: seq<string>, items: seq<PriorFile>, j: nat,
                item: PriorFile)
    requires Distinct(paths) && Consistent(d0, d, stage, paths, items) && j < |paths|
    requires OnlyAt(d, d', stage, paths[j]) && InFlight(d0, d', stage, paths[j], item)
    ensures Consistent(d0, d', stage, paths, items[j := item])
  {
  }

  lemma MoveAside(d0: Disk, d: Disk, stage: nat, p: string, item: PriorFile)
    requires InFlight(d0, d, stage, p, item) && !item.moved && !item.installed && Home(p) in d
    ensures var d' := Renamed(d, Home(p), Prior(stage, p));
            OnlyAt(d, d', stage, p) && InFlight(d0, d', stage, p, item.(moved := true))
  {
  }

  lemma Install(d0: Disk, d: Disk, stage: nat, p: string, item: PriorFile)
    requires InFlight(d0, d, stage, p, item) && !item.installed && Next(stage, p) in d
    requires item.moved <==> Home(p) in d0
    ensures var d' := Renamed(d, Next(stage, p), Home(p));
            OnlyAt(d, d', stage, p) && InFlight(d0, d', stage, p, item.(installed := true))
  {
  }

  lemma RollbackBegins(d0: Disk, d: Disk, stage: nat, paths: seq<string>, items: seq<PriorFile>, applied: seq<nat>)
    requires Consistent(d0, d, stage, paths, items)
    requires forall j | 0 <= j < |items| && j !in applied :: !items[j].moved && !items[j].installed
    ensures Rolling(d0, d, stage, paths, items, applied, |applied|, true)
  {
  }

  lemma RollbackNext(d0: Disk, d: Disk, d': Disk, stage: nat, paths: seq<string>, items: seq<PriorFile>,
                     applied: seq<nat>, k: nat, restored: bool, ok: bool)
    requires Distinct(paths) && |items| == |paths| && k < |applied| && applied[k] < |paths|
    requires applied[k] !in applied[..k]
    requires Rolling(d0, d, stage, paths, items, applied, k + 1, restored)
    requires OnlyAt(d, d', stage, paths[applied[k]]) && Undone(d0, d', stage, paths[applied[k]], ok)
    ensures Rolling(d0, d', stage, paths, items, applied, k, restored && ok)
  {
  }
}
