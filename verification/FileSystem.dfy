/** The file system seam of the projector. Any call may fail without effect, and cancellation may
    strike between any two calls; both follow a schedule that every statement quantifies over. */
module FileSystems {
  import opened Wrappers

  /** A path of the Identity Home, or of the new or old files kept in one staging directory. */
  datatype Location =
    | Home(path: string)
    | Next(stage: nat, path: string)
    | Prior(stage: nat, path: string)

  type Disk = map<Location, string>

  ghost function At(d: Disk, l: Location): Option<string> {
    if l in d then Some(d[l]) else None
  }

  datatype Read = Missing | Unreadable | Content(text: string)

  class FileSystem {
    var disk: Disk
    /** Staging directories made so far; each gets a name never used before. */
    var stages: nat
    /** Calls made so far: the index into the schedules. */
    var calls: nat
    const fails: nat -> bool
    const cancelled: nat -> bool
    /** What a failing RemoveAll leaves behind. */
    const spared: (nat, Location) -> bool

    ghost predicate Valid()
      reads this
    {
      forall l | l in disk :: l.Home? || l.stage < stages
    }

    /** No call fails and no cancellation is seen from one call count to another. */
    ghost predicate Undisturbed(from: nat, to: nat) {
      && (forall k | from <= k < to :: !fails(k))
      && (forall k | from <= k <= to :: !cancelled(k))
    }

    constructor (disk: Disk, stages: nat, fails: nat -> bool, cancelled: nat -> bool, spared: (nat, Location) -> bool)
      requires forall l | l in disk :: l.Home? || l.stage < stages
      ensures Valid() && this.disk == disk
    {
      this.disk, this.stages, calls := disk, stages, 0;
      this.fails, this.cancelled, this.spared := fails, cancelled, spared;
    }

    /** A call that looks at or prepares something the model does not track: the home itself,
        symbolic links on a path, parent directories. */
    method Check() returns (ok: bool)
      modifies this`calls
      ensures calls == old(calls) + 1
      ensures ok <==> !fails(old(calls))
    {
      ok := !fails(calls);
      calls := calls + 1;
    }

    /** Whether a file is there, or None when that cannot be told or it is a directory. */
    method Stat(l: Location) returns (present: Option<bool>)
      modifies this`calls
      ensures calls == old(calls) + 1
      ensures present == if fails(old(calls)) then None else Some(l in disk)
    {
      present := if fails(calls) then None else Some(l in disk);
      calls := calls + 1;
    }

    method ReadFile(l: Location) returns (r: Read)
      modifies this`calls
      ensures calls == old(calls) + 1
      ensures r == if fails(old(calls)) then Unreadable else if l in disk then Content(disk[l]) else Missing
    {
      r := if fails(calls) then Unreadable else if l in disk then Content(disk[l]) else Missing;
      calls := calls + 1;
    }

    method MkdirTemp() returns (stage: Option<nat>)
      requires Valid()
      modifies this`calls, this`stages
      ensures Valid() && calls == old(calls) + 1
      ensures stage == if fails(old(calls)) then None else Some(old(stages))
      ensures stages == if fails(old(calls)) then old(stages) else old(stages) + 1
    {
      stage := None;
      if !fails(calls) {
        stage := Some(stages);
        stages := stages + 1;
      }
      calls := calls + 1;
    }

    method WriteFile(l: Location, text: string) returns (ok: bool)
      requires Valid() && (l.Home? || l.stage < stages)
      modifies this`calls, this`disk
      ensures Valid() && calls == old(calls) + 1
      ensures ok <==> !fails(old(calls))
      ensures disk == if ok then old(disk)[l := text] else old(disk)
    {
      ok := !fails(calls);
      calls := calls + 1;
      if ok { disk := disk[l := text]; }
    }

    method Rename(from: Location, to: Location) returns (ok: bool)
      requires Valid() && (to.Home? || to.stage < stages)
      modifies this`calls, this`disk
      ensures Valid() && calls == old(calls) + 1
      ensures ok <==> !fails(old(calls)) && from in old(disk)
      ensures disk == if ok then (old(disk) - {from})[to := old(disk)[from]] else old(disk)
    {
      ok := !fails(calls) && from in disk;
      calls := calls + 1;
      if ok { disk := (disk - {from})[to := disk[from]]; }
    }

    method Remove(l: Location) returns (ok: bool)
      requires Valid()
      modifies this`calls, this`disk
      ensures Valid() && calls == old(calls) + 1
      ensures ok <==> !fails(old(calls)) && l in old(disk)
      ensures disk == if ok then old(disk) - {l} else old(disk)
    {
      ok := !fails(calls) && l in disk;
      calls := calls + 1;
      if ok { disk := disk - {l}; }
    }

    /** Deletes a staging directory; when it fails some of it may already be gone. */
    method RemoveAll(stage: nat)
      requires Valid()
      modifies this`calls, this`disk
      ensures Valid() && calls == old(calls) + 1
      ensures forall l :: At(disk, l) == if l.Home? || l.stage != stage || (fails(old(calls)) && spared(old(calls), l))
                                         then At(old(disk), l) else None
    {
      disk := map l | l in disk && (l.Home? || l.stage != stage || (fails(calls) && spared(calls, l))) :: disk[l];
      calls := calls + 1;
    }
  }
}
