/** Projection of a file set into an Identity Home: staged, applied by renames with the old files
    moved aside, undone in reverse when anything fails, keeping every file the user edited. */
module Projection {
  import opened Wrappers
  import opened Ordering
  import opened PackFiles
  import opened FileSystems

  const MANIFEST := ".codex-folio-projection.json"

  // ---- The previous projection ----------------------------------------------------------------

  function Untracked(paths: seq<string>): Files {
    map p | p in paths :: ""
  }

  /** The manifest as a map, also from the older list form. */
  function Parsed(f: Foreign, text: string): Option<Files> {
    match f.decodeManifest(text)
    case Some(m) => Some(m)
    case None =>
      match f.decodeLegacy(text)
      case Some(paths) => if |paths| > MAX_FILES then None else Some(Untracked(paths))
      case None => None
  }

  ghost predicate ManifestAccepted(f: Foreign, m: Files) {
    && |m| <= MAX_FILES
    && (forall p | p in m :: ValidEntry(f, p, m[p]))
    && FoldDistinct(f, m.Keys)
  }

  /** The recorded projection of a home: none yet, an accepted manifest, or an error. */
  ghost function Previous(f: Foreign, d: Disk): Option<Files> {
    match At(d, Home(MANIFEST))
    case None => Some(map[])
    case Some(text) =>
      match Parsed(f, text)
      case None => None
      case Some(m) => if ManifestAccepted(f, m) then Some(m) else None
  }

  /** A manifest is accepted, in numbers. */
  lemma AcceptedManifestExactly(f: Foreign, m: Files)
    ensures ManifestAccepted(f, m) <==>
              && |m| <= 256
              && (forall p | p in m ::
                    ValidPath(f, p) && (m[p] == "" || (|m[p]| == 64 && forall c | c in m[p] :: HexDigit(c))))
              && (forall p, q | p in m && q in m && f.fold(p) == f.fold(q) :: p == q)
  {
  }

  ghost predicate HexDigit(c: char) {
    '0' <= c <= '9' || 'a' <= c <= 'f' || 'A' <= c <= 'F'
  }

  /** What the manifest of a home says: no manifest is an empty one; the map form is taken as it is;
      the list form gives its paths without digests; anything else, and what is not accepted, is an
      error. */
  lemma PreviousExactly(f: Foreign, d: Disk)
    ensures Home(MANIFEST) !in d ==> Previous(f, d) == Some(map[])
    ensures Home(MANIFEST) in d && f.decodeManifest(d[Home(MANIFEST)]).Some? ==>
              var m := f.decodeManifest(d[Home(MANIFEST)]).value;
              Previous(f, d) == if ManifestAccepted(f, m) then Some(m) else None
    ensures Home(MANIFEST) in d && f.decodeManifest(d[Home(MANIFEST)]).None? && Previous(f, d).Some? ==>
              && f.decodeLegacy(d[Home(MANIFEST)]).Some?
              && var paths := f.decodeLegacy(d[Home(MANIFEST)]).value;
                 && |paths| <= 256 && (forall p :: p in Previous(f, d).value <==> p in paths)
                 && forall p | p in paths :: Previous(f, d).value[p] == ""
    ensures Home(MANIFEST) in d && f.decodeManifest(d[Home(MANIFEST)]).None? && Previous(f, d).None? ==>
              || f.decodeLegacy(d[Home(MANIFEST)]).None?
              || |f.decodeLegacy(d[Home(MANIFEST)]).value| > 256
              || !ManifestAccepted(f, map p | p in f.decodeLegacy(d[Home(MANIFEST)]).value :: "")
  {
    hide ManifestAccepted;
  }

  predicate ValidEntry(f: Foreign, p: string, digest: string) {
    ValidPath(f, p) && (digest == "" || HexDigest(digest))
  }

  /** The entries at `seen` have been found acceptable, with these folded paths. */
  ghost predicate Checked(f: Foreign, m: Files, seen: set<string>, folds: set<string>) {
    && seen <= m.Keys
    && (forall p | p in seen :: ValidEntry(f, p, m[p]))
    && FoldDistinct(f, seen) && folds == Folds(f, seen)
  }

  lemma NextEntry(f: Foreign, m: Files, seen: set<string>, folds: set<string>, p: string)
    requires Checked(f, m, seen, folds) && p in m && p !in seen
    ensures if ValidEntry(f, p, m[p]) && f.fold(p) !in folds then Checked(f, m, seen + {p}, folds + {f.fold(p)})
            else !ManifestAccepted(f, m)
  {
  }

  lemma CheckBegins(f: Foreign, m: Files)
    ensures Checked(f, m, {}, {}) && (ManifestAccepted(f, m) ==> |m| <= MAX_FILES)
  {
  }

  lemma CheckEnds(f: Foreign, m: Files, folds: set<string>)
    requires Checked(f, m, m.Keys, folds) && |m| <= MAX_FILES
    ensures ManifestAccepted(f, m)
  {
  }

  lemma ManifestIsNoPackPath(f: Foreign)
    ensures !ValidPath(f, MANIFEST)
  {
  }

  // ---- What a projection means ----------------------------------------------------------------

  /** The file at p is neither what the pack wants nor what the last projection wrote. */
  ghost predicate Edited(f: Foreign, d: Disk, previous: Files, files: Files, p: string) {
    && Home(p) in d
    && !(p in files && files[p] == d[Home(p)])
    && !(p in previous && previous[p] != "" && f.sha(d[Home(p)]) == previous[p])
  }

  ghost function ConflictPaths(f: Foreign, d: Disk, previous: Files, files: Files): set<string> {
    set p | p in files.Keys + previous.Keys && Edited(f, d, previous, files, p)
  }

  function ChangesAt(files: Files, paths: seq<string>): (r: seq<Change>)
    ensures |r| == |paths|
  {
    seq(|paths|, i requires 0 <= i < |paths| => Change(paths[i], if paths[i] in files then Modified else Removed))
  }

  /** The conflicts shown for review: edited paths in order, with what the pack wanted of them. */
  ghost function Conflicts(f: Foreign, d: Disk, previous: Files, files: Files): seq<Change> {
    ChangesAt(files, SortedKeys(ConflictPaths(f, d, previous, files)))
  }

  ghost function ManifestAfter(f: Foreign, d: Disk, previous: Files, files: Files): Files {
    map p | p in files && !Edited(f, d, previous, files, p) :: f.sha(files[p])
  }

  /** What the home holds at p after a successful projection. */
  ghost function HomeAfter(f: Foreign, d: Disk, previous: Files, files: Files, p: string): Option<string> {
    if p == MANIFEST then Some(f.encodeManifest(ManifestAfter(f, d, previous, files)))
    else if (p !in files && p !in previous) || Edited(f, d, previous, files, p) then At(d, Home(p))
    else if p in files then Some(files[p])
    else None
  }

  /** The home of `after` is the result of projecting `files` onto `d`. */
  ghost predicate Projected(f: Foreign, d: Disk, previous: Files, files: Files, after: Disk) {
    forall p :: At(after, Home(p)) == HomeAfter(f, d, previous, files, p)
  }

  /** The file at p belongs to the projection: it holds what the last one wrote. */
  ghost predicate Owned(f: Foreign, previous: Files, p: string, content: string) {
    p in previous && previous[p] != "" && f.sha(content) == previous[p]
  }

  /** What a projected home holds, path by path. A file of the pack is installed where there was
      none, or its own content, or what the last projection wrote; a dropped file goes if it is
      what the last projection wrote; every other file stays; and the manifest records the digests
      of exactly the installed files. */
  lemma ProjectedExactly(f: Foreign, d: Disk, previous: Files, files: Files, after: Disk)
    requires Projected(f, d, previous, files, after) && MANIFEST !in files && MANIFEST !in previous
    ensures forall p | p in files && Home(p) !in d :: At(after, Home(p)) == Some(files[p])
    ensures forall p | p in files && Home(p) in d ::
              At(after, Home(p)) == if d[Home(p)] == files[p] || Owned(f, previous, p, d[Home(p)])
                                    then Some(files[p]) else Some(d[Home(p)])
    ensures forall p | p in previous && p !in files && Home(p) !in d :: Home(p) !in after
    ensures forall p | p in previous && p !in files && Home(p) in d ::
              At(after, Home(p)) == if Owned(f, previous, p, d[Home(p)]) then None else Some(d[Home(p)])
    ensures forall p | p !in previous && p !in files && p != MANIFEST :: At(after, Home(p)) == At(d, Home(p))
    ensures exists m: Files ::
              && At(after, Home(MANIFEST)) == Some(f.encodeManifest(m))
              && (forall p | p in m :: p in files && m[p] == f.sha(files[p]))
              && (forall p | p in files :: p in m <==> Home(p) !in d || d[Home(p)] == files[p]
                                                       || Owned(f, previous, p, d[Home(p)]))
  {
    assert At(after, Home(MANIFEST)) == HomeAfter(f, d, previous, files, MANIFEST);
    forall p ensures At(after, Home(p)) == HomeAfter(f, d, previous, files, p) {}
    var m := ManifestAfter(f, d, previous, files);
    assert At(after, Home(MANIFEST)) == Some(f.encodeManifest(m));
  }

  /** The conflicts, sorted by path: a file of the pack that holds something else is one to modify, a
      dropped one that the user changed is one to remove. */
  lemma ConflictsExactly(f: Foreign, d: Disk, previous: Files, files: Files)
    ensures Increasing(PathsOf(Conflicts(f, d, previous, files)))
    ensures forall p :: Change(p, Modified) in Conflicts(f, d, previous, files) <==>
              p in files && Home(p) in d && d[Home(p)] != files[p] && !Owned(f, previous, p, d[Home(p)])
    ensures forall p :: Change(p, Removed) in Conflicts(f, d, previous, files) <==>
              p !in files && p in previous && Home(p) in d && !Owned(f, previous, p, d[Home(p)])
    ensures forall p :: Change(p, Added) !in Conflicts(f, d, previous, files)
  {
    hide Conflicts, Increasing;
    ConflictPathsInOrder(f, d, previous, files);
    forall p, k
      ensures Change(p, k) in Conflicts(f, d, previous, files) <==>
              p in ConflictPaths(f, d, previous, files) && k == if p in files then Modified else Removed
    {
      ConflictMember(f, d, previous, files, Change(p, k));
    }
  }

  lemma ConflictPathsInOrder(f: Foreign, d: Disk, previous: Files, files: Files)
    ensures Increasing(PathsOf(Conflicts(f, d, previous, files)))
  {
    var paths := SortedKeys(ConflictPaths(f, d, previous, files));
    assert PathsOf(ChangesAt(files, paths)) == paths;
  }

  ghost predicate SameHome(a: Disk, b: Disk) {
    forall p :: At(a, Home(p)) == At(b, Home(p))
  }

  // ---- Idempotence ------------------------------------------------------------------------------

  /** The manifest a projection writes is accepted by the next one and reads back equal. */
  lemma ManifestReadsBack(f: Foreign, d: Disk, previous: Files, files: Files, after: Disk)
    requires f.LawfulHash() && f.LawfulManifest() && FilesValid(f, files) && Utf8Paths(f, files)
    requires Projected(f, d, previous, files, after)
    ensures Previous(f, after) == Some(ManifestAfter(f, d, previous, files))
  {
    hide HexDigest, ValidPath, Edited, Projected;
    var m := ManifestAfter(f, d, previous, files);
    SubsetSize(m.Keys, files.Keys);
    ProjectedAt(f, d, previous, files, after, MANIFEST);
    assert forall p | p in m :: HexDigest(m[p]) && ValidFile(f, p, files[p]);
  }

  /** After a projection, an installed path is edited no more and an edited one still is. */
  lemma EditedAgain(f: Foreign, d: Disk, previous: Files, files: Files, after: Disk, p: string)
    requires FilesValid(f, files) && p in files
    requires Projected(f, d, previous, files, after)
    ensures Edited(f, after, ManifestAfter(f, d, previous, files), files, p) <==> Edited(f, d, previous, files, p)
  {
    ManifestIsNoPackPath(f);
    assert ValidFile(f, p, files[p]);
    assert At(after, Home(p)) == HomeAfter(f, d, previous, files, p);
  }

  lemma ManifestIsStable(f: Foreign, d: Disk, previous: Files, files: Files, once: Disk)
    requires FilesValid(f, files) && Projected(f, d, previous, files, once)
    ensures ManifestAfter(f, once, ManifestAfter(f, d, previous, files), files) == ManifestAfter(f, d, previous, files)
  {
    hide FilesValid, Edited, Projected;
    var m := ManifestAfter(f, d, previous, files);
    forall p | p in files ensures Edited(f, once, m, files, p) <==> Edited(f, d, previous, files, p) {
      EditedAgain(f, d, previous, files, once, p);
    }
  }

  lemma SecondRunAt(f: Foreign, d: Disk, previous: Files, files: Files, once: Disk, p: string)
    requires FilesValid(f, files) && Projected(f, d, previous, files, once)
    ensures HomeAfter(f, once, ManifestAfter(f, d, previous, files), files, p) == At(once, Home(p))
  {
    hide FilesValid, Projected;
    var m := ManifestAfter(f, d, previous, files);
    ManifestIsStable(f, d, previous, files, once);
    assert At(once, Home(p)) == HomeAfter(f, d, previous, files, p) by { ProjectedAt(f, d, previous, files, once, p); }
    if p in files { EditedAgain(f, d, previous, files, once, p); }
  }

  lemma ProjectedAt(f: Foreign, d: Disk, previous: Files, files: Files, after: Disk, p: string)
    requires Projected(f, d, previous, files, after)
    ensures At(after, Home(p)) == HomeAfter(f, d, previous, files, p)
  {
  }

  /** Projecting the same files again leaves the home and the manifest as they are. */
  lemma ProjectionIsIdempotent(f: Foreign, d: Disk, previous: Files, files: Files, once: Disk, twice: Disk)
    requires FilesValid(f, files)
    requires Projected(f, d, previous, files, once)
    requires Projected(f, once, ManifestAfter(f, d, previous, files), files, twice)
    ensures SameHome(once, twice)
    ensures ManifestAfter(f, once, ManifestAfter(f, d, previous, files), files) == ManifestAfter(f, d, previous, files)
  {
    hide FilesValid, Edited, Projected, HomeAfter, ManifestAfter;
    ManifestIsStable(f, d, previous, files, once);
    forall p ensures At(once, Home(p)) == At(twice, Home(p)) {
      SecondRunAt(f, d, previous, files, once, p);
      ProjectedAt(f, once, ManifestAfter(f, d, previous, files), files, twice, p);
    }
  }

  /** The second run's conflicts are exactly the "modified" part of the first run's: a conflict on
      a file the pack has dropped is forgotten, one on a file it still has is not. */
  lemma ConflictsOfSecondRun(f: Foreign, d: Disk, previous: Files, files: Files, once: Disk)
    requires FilesValid(f, files) && Projected(f, d, previous, files, once)
    ensures var m := ManifestAfter(f, d, previous, files);
            forall c :: c in Conflicts(f, once, m, files)
                <==> c in Conflicts(f, d, previous, files) && c.kind == Modified
  {
    hide FilesValid, Projected, Conflicts;
    var m := ManifestAfter(f, d, previous, files);
    forall p | p in files ensures Edited(f, once, m, files, p) <==> Edited(f, d, previous, files, p) {
      EditedAgain(f, d, previous, files, once, p);
    }
    forall c
      ensures c in Conflicts(f, once, m, files) <==> c in Conflicts(f, d, previous, files) && c.kind == Modified
    {
      ConflictMember(f, once, m, files, c);
      ConflictMember(f, d, previous, files, c);
    }
  }

  lemma ConflictMember(f: Foreign, d: Disk, previous: Files, files: Files, c: Change)
    ensures c in Conflicts(f, d, previous, files) <==>
            c.path in ConflictPaths(f, d, previous, files) && c.kind == if c.path in files then Modified else Removed
  {
    var paths := SortedKeys(ConflictPaths(f, d, previous, files));
    if c.path in ConflictPaths(f, d, previous, files) {
      assert c.path in Elements(paths);
      var i :| 0 <= i < |paths| && paths[i] == c.path;
      assert ChangesAt(files, paths)[i].path == c.path;
    }
    if c in ChangesAt(files, paths) {
      var i :| 0 <= i < |paths| && ChangesAt(files, paths)[i] == c;
      assert paths[i] in Elements(paths);
    }
  }

  // ---- Collecting conflicts in path order -------------------------------------------------------

  /** `found` lists, in order, the wanted paths among the first i of an ordered list. */
  ghost predicate CollectedUpTo(wanted: set<string>, ordered: seq<string>, i: nat, found: seq<string>)
    requires i <= |ordered|
  {
    Increasing(found) && Elements(found) == wanted * Elements(ordered[..i])
  }

  lemma CollectNext(wanted: set<string>, ordered: seq<string>, i: nat, found: seq<string>)
    requires Increasing(ordered) && i < |ordered| && CollectedUpTo(wanted, ordered, i, found)
    ensures CollectedUpTo(wanted, ordered, i + 1, if ordered[i] in wanted then found + [ordered[i]] else found)
  {
    assert ordered[..i + 1] == ordered[..i] + [ordered[i]];
    assert Elements(ordered[..i + 1]) == Elements(ordered[..i]) + {ordered[i]};
    if ordered[i] in wanted {
      forall p | p in found ensures p in ordered[..i] { assert p in Elements(found); }
      ExtendIncreasing(found, ordered, i);
      assert Elements(found + [ordered[i]]) == Elements(found) + {ordered[i]};
    }
  }

  lemma CollectAll(wanted: set<string>, ordered: seq<string>, found: seq<string>)
    requires CollectedUpTo(wanted, ordered, |ordered|, found) && wanted <= Elements(ordered)
    ensures found == SortedKeys(wanted)
  {
    assert ordered[..|ordered|] == ordered;
    IncreasingUnique(found, SortedKeys(wanted));
  }

  lemma ChangesAtAppend(files: Files, paths: seq<string>, p: string)
    ensures ChangesAt(files, paths + [p])
            == ChangesAt(files, paths) + [Change(p, if p in files then Modified else Removed)]
  {
  }

  /** Both loops look at the same conflicts, though only one of them also visits the manifest. */
  lemma ManifestNeverConflicts(f: Foreign, d: Disk, previous: Files, files: Files)
    requires FilesValid(f, files) && ManifestAccepted(f, previous)
    ensures MANIFEST !in files && MANIFEST !in previous
    ensures MANIFEST !in ConflictPaths(f, d, previous, files)
  {
  }

  // ---- Reviewed conflicts -------------------------------------------------------------------------

  function Rank(kind: ChangeKind): nat {
    match kind case Added => 0 case Modified => 1 case Removed => 2
  }

  predicate ChangeLe(a: Change, b: Change) {
    if a.path == b.path then Rank(a.kind) <= Rank(b.kind) else StringLe(a.path, b.path)
  }

  lemma ChangeOrder()
    ensures TotalOrder(ChangeLe)
  {
    forall a, b ensures (ChangeLe(a, b) || ChangeLe(b, a)) && (ChangeLe(a, b) && ChangeLe(b, a) ==> a == b) {
      StringLeTotal(a.path, b.path);
    }
    forall a, b, c | ChangeLe(a, b) && ChangeLe(b, c) ensures ChangeLe(a, c) {
      StringLeTotal(a.path, b.path);
      if a.path != b.path && b.path != c.path { StringLeTransitive(a.path, b.path, c.path); }
    }
  }

  function SortedChanges(s: seq<Change>): seq<Change> {
    Sort(s, ChangeLe)
  }

  /** Sorted lists are equal exactly when the lists hold the same changes as often. */
  lemma SortedChangesCanonical(a: seq<Change>, b: seq<Change>)
    ensures SortedChanges(a) == SortedChanges(b) <==> multiset(a) == multiset(b)
  {
    ChangeOrder();
    SortOrdered(a, ChangeLe);
    SortOrdered(b, ChangeLe);
    if multiset(a) == multiset(b) {
      OrderedUnique(SortedChanges(a), SortedChanges(b), ChangeLe);
    }
  }

  method SameChanges(left: seq<Change>, right: seq<Change>) returns (same: bool)
    ensures same <==> multiset(left) == multiset(right)
  {
    hide SortedChanges;
    SortedChangesCanonical(left, right);
    var a, b := SortedChanges(left), SortedChanges(right);
    if |a| != |b| { return false; }
    for i := 0 to |a|
      invariant a[..i] == b[..i]
    {
      if a[i] != b[i] { return false; }
    }
    assert a[..|a|] == a && b[..|b|] == b;
    return true;
  }
}
