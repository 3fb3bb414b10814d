/** The pack service: overrides, previews and reviewed applies over a repository of packs,
    assignments and overrides, and the homes of the profiles. */
module PackServices {
  import opened Wrappers
  import opened Ordering
  import opened PackFiles
  import opened FileSystems
  import opened Projection
  import opened Projectors

  const STATUS_READY := "ready"
  const OWNERSHIP_MANAGED := "managed"

  datatype Assignment = Assignment(profileId: string, alias: string, packId: string, version: string, digest: string)

  datatype ProfileTarget = ProfileTarget(
    id: string, alias: string, status: string, homeOwnership: string, identityHome: string, activeLaunch: bool)

  /** What a reviewer is shown, as it is digested: conflicts are sorted. */
  datatype Review = Review(
    assignment: Assignment, targetId: string, targetHome: string, filesDigest: string, conflicts: seq<Change>)

  datatype PromotionReview = PromotionReview(
    assignment: Assignment, packDigest: string, toVersion: string, filesDigest: string, changes: seq<Change>)

  /** JSON encoders of the two review documents. Equal bytes mean equal documents up to the repair
      of strings that are not UTF-8. */
  datatype ReviewCodec = ReviewCodec(encodeReview: Review -> string, encodePromotion: PromotionReview -> string) {
    ghost predicate Lawful(f: Foreign) {
      && (forall a, b | encodeReview(a) == encodeReview(b) :: RepairedReview(f, a) == RepairedReview(f, b))
      && (forall a, b | encodePromotion(a) == encodePromotion(b) :: RepairedPromotion(f, a) == RepairedPromotion(f, b))
    }
  }

  function RepairedAssignment(f: Foreign, a: Assignment): Assignment {
    Assignment(f.repair(a.profileId), f.repair(a.alias), f.repair(a.packId), f.repair(a.version), f.repair(a.digest))
  }

  function RepairedChanges(f: Foreign, changes: seq<Change>): seq<Change> {
    seq(|changes|, i requires 0 <= i < |changes| => changes[i].(path := f.repair(changes[i].path)))
  }

  function RepairedReview(f: Foreign, r: Review): Review {
    Review(RepairedAssignment(f, r.assignment), f.repair(r.targetId), f.repair(r.targetHome), f.repair(r.filesDigest),
           RepairedChanges(f, r.conflicts))
  }

  function RepairedPromotion(f: Foreign, r: PromotionReview): PromotionReview {
    PromotionReview(RepairedAssignment(f, r.assignment), f.repair(r.packDigest), f.repair(r.toVersion),
                    f.repair(r.filesDigest), RepairedChanges(f, r.changes))
  }

  predicate Blank(s: string) {
    forall c | c in s :: c in {' ', '\t', '\n', '\r'}
  }

  predicate Manageable(t: ProfileTarget) {
    t.status == STATUS_READY && t.homeOwnership == OWNERSHIP_MANAGED && !Blank(t.identityHome)
  }

  /** Ready and managed, at a home that is not blank. */
  ghost predicate ReadyAndManaged(t: ProfileTarget) {
    t.status == "ready" && t.homeOwnership == "managed" && Written(t.identityHome)
  }

  /** Something but spaces, tabs and line ends. */
  ghost predicate Written(s: string) {
    exists i | 0 <= i < |s| :: s[i] != ' ' && s[i] != '\t' && s[i] != '\n' && s[i] != '\r'
  }

  lemma ManageableExactly(t: ProfileTarget)
    ensures Manageable(t) <==> ReadyAndManaged(t)
  {
    BlankExactly(t.identityHome);
  }

  lemma BlankExactly(s: string)
    ensures Blank(s) <==> !Written(s)
  {
    if !Blank(s) {
      var c :| c in s && c !in {' ', '\t', '\n', '\r'};
      var i :| 0 <= i < |s| && s[i] == c;
    } else {
      assert forall i | 0 <= i < |s| :: s[i] in s;
    }
  }

  // ---- The repository ---------------------------------------------------------------------------

  class Repository {
    const f: Foreign
    var packs: map<(string, string), Pack>
    var assignments: map<string, Assignment>
    var overrides: map<string, Files>
    var profiles: map<string, ProfileTarget>
    var calls: nat
    const fails: nat -> bool

    ghost predicate Healthy(from: nat, to: nat) {
      forall k | from <= k < to :: !fails(k)
    }

    /** Every pack is stored under its own identifier and version. */
    ghost predicate Keyed()
      reads this`packs
    {
      forall k | k in packs :: packs[k].id == k.0 && packs[k].version == k.1
    }

    constructor (f: Foreign, fails: nat -> bool)
      ensures Keyed()
      ensures this.f == f && packs == map[] && assignments == map[] && overrides == map[] && profiles == map[]
    {
      this.f, this.fails := f, fails;
      packs, assignments, overrides, profiles, calls := map[], map[], map[], map[], 0;
    }

    method GetAssignment(alias: string) returns (r: Result<Assignment, Error>)
      modifies this`calls
      ensures calls == old(calls) + 1
      ensures r == if fails(old(calls)) then Err(StoreFailed)
                   else if alias in assignments then Ok(assignments[alias]) else Err(NoAssignment)
    {
      r := if fails(calls) then Err(StoreFailed)
           else if alias in assignments then Ok(assignments[alias]) else Err(NoAssignment);
      calls := calls + 1;
    }

    method GetPack(id: string, version: string) returns (r: Result<Pack, Error>)
      modifies this`calls
      ensures calls == old(calls) + 1
      ensures r == if fails(old(calls)) then Err(StoreFailed)
                   else if (id, version) in packs then Ok(packs[(id, version)]) else Err(NotFound)
    {
      r := if fails(calls) then Err(StoreFailed)
           else if (id, version) in packs then Ok(packs[(id, version)]) else Err(NotFound);
      calls := calls + 1;
    }

    ghost function OverridesOf(alias: string): Files
      reads this`overrides
    {
      if alias in overrides then overrides[alias] else map[]
    }

    method GetOverrides(alias: string) returns (r: Result<Files, Error>)
      modifies this`calls
      ensures calls == old(calls) + 1
      ensures r == if fails(old(calls)) then Err(StoreFailed) else Ok(OverridesOf(alias))
    {
      r := if fails(calls) then Err(StoreFailed)
           else Ok(if alias in overrides then overrides[alias] else map[]);
      calls := calls + 1;
    }

    method GetProfile(alias: string) returns (r: Result<ProfileTarget, Error>)
      modifies this`calls
      ensures calls == old(calls) + 1
      ensures r == if fails(old(calls)) then Err(StoreFailed)
                   else if alias in profiles then Ok(profiles[alias]) else Err(NotFound)
    {
      r := if fails(calls) then Err(StoreFailed)
           else if alias in profiles then Ok(profiles[alias]) else Err(NotFound);
      calls := calls + 1;
    }

    /** Validates the single file again, requires a ready managed profile, then upserts the row. */
    method SetOverride(alias: string, path: string, content: string) returns (error: Option<Error>)
      modifies this`calls, this`overrides
      ensures calls >= old(calls)
      ensures overrides == if error.None? then old(overrides)[alias := old(OverridesOf(alias))[path := content]]
                           else old(overrides)
      ensures error.Some? ==> !FilesValid(f, map[path := content]) || alias !in profiles
                              || !(profiles[alias].status == STATUS_READY
                                  && profiles[alias].homeOwnership == OWNERSHIP_MANAGED)
                              || !Healthy(old(calls), calls)
    {
      hide FilesValid;
      var ok := ValidateFiles(f, map[path := content]);
      if !ok { return Some(Invalid); }
      var target := GetProfile(alias);
      if target.Err? { return Some(target.error); }
      if target.value.status != STATUS_READY || target.value.homeOwnership != OWNERSHIP_MANAGED {
        return Some(AssignmentInvalid);
      }
      calls := calls + 1;
      if fails(calls - 1) { return Some(StoreFailed); }
      overrides := overrides[alias := (if alias in overrides then overrides[alias] else map[])[path := content]];
      return None;
    }

    /** Publishes a new version next to the one it came from; the pack must have an encoding. */
    method PromotePack(pack: Pack, fromVersion: string) returns (error: Option<Error>)
      modifies this`calls, this`packs
      ensures calls >= old(calls)
      ensures packs == if error.None? then old(packs)[(pack.id, pack.version) := pack] else old(packs)
      ensures error.None? ==> pack.state == Approved && PackValid(f, pack) && Encodable(f, pack.files)
      ensures error.None? ==> (pack.id, pack.version) !in old(packs)
      ensures error.None? ==> (pack.id, fromVersion) in old(packs)
                              && old(packs)[(pack.id, fromVersion)].state == Approved
      ensures error.Some? ==>
                || pack.state != Approved || !PackValid(f, pack) || !Encodable(f, pack.files)
                || |pack.digest| != 64 || fromVersion == pack.version || (pack.id, pack.version) in packs
                || (pack.id, fromVersion) !in packs || packs[(pack.id, fromVersion)].state != Approved
                || !Healthy(old(calls), calls)
    {
      hide PackValid, FilesValid;
      ValidPackFiles(f, pack);
      if pack.state != Approved { return Some(Invalid); }
      var ok := ValidatePack(f, pack);
      if !ok { return Some(Invalid); }
      var encoded := CanonicalFiles(f, pack.files);
      if encoded.None? || |pack.digest| != 64 || fromVersion == pack.version { return Some(Invalid); }
      calls := calls + 1;
      if fails(calls - 1) { return Some(StoreFailed); }
      if (pack.id, fromVersion) !in packs { return Some(NotFound); }
      if packs[(pack.id, fromVersion)].state != Approved { return Some(NotApproved); }
      if (pack.id, pack.version) in packs { return Some(Invalid); }
      packs := packs[(pack.id, pack.version) := pack];
      return None;
    }
  }

  // ---- What a review stands for -------------------------------------------------------------------

  /** The configuration in effect for a profile. */
  datatype Effective = Effective(assignment: Assignment, pack: Pack, merged: Files)

  /** What a preview shows and a reviewed apply acts on. */
  datatype Basis = Basis(assignment: Assignment, target: ProfileTarget, merged: Files, conflicts: seq<Change>)

  ghost function ReviewOf(f: Foreign, b: Basis): Review {
    Review(b.assignment, b.target.id, b.target.identityHome, FilesDigest(f, b.merged), SortedChanges(b.conflicts))
  }

  ghost function BasisDigest(f: Foreign, codec: ReviewCodec, b: Basis): string {
    f.sha(codec.encodeReview(ReviewOf(f, b)))
  }

  /** The two review documents do not collide. */
  ghost predicate ReviewsApart(f: Foreign, codec: ReviewCodec, a: Basis, b: Basis) {
    !f.Collide(codec.encodeReview(ReviewOf(f, a)), codec.encodeReview(ReviewOf(f, b)))
  }

  /** Every string of the review is UTF-8. */
  ghost predicate Utf8Review(f: Foreign, b: Basis) {
    RepairedReview(f, ReviewOf(f, b)) == ReviewOf(f, b)
  }

  /** What a review document says, and of what. */
  lemma ReviewCovers(f: Foreign, b: Basis)
    ensures ReviewOf(f, b).assignment == b.assignment && ReviewOf(f, b).filesDigest == FilesDigest(f, b.merged)
    ensures ReviewOf(f, b).targetId == b.target.id && ReviewOf(f, b).targetHome == b.target.identityHome
    ensures multiset(ReviewOf(f, b).conflicts) == multiset(b.conflicts) && Ordered(ReviewOf(f, b).conflicts, ChangeLe)
  {
    hide FilesDigest;
    ChangeOrder();
    SortOrdered(b.conflicts, ChangeLe);
  }

  /** A review digest identifies everything it covers: two situations with one digest agree up to
      the repair of broken strings, and in the files digest; without broken strings they share one
      exactly when assignment, target, files digest and conflicts agree. */
  lemma ReviewDigestExactly(f: Foreign, codec: ReviewCodec, a: Basis, b: Basis)
    requires codec.Lawful(f) && f.LawfulCodec() && f.LawfulHash() && ReviewsApart(f, codec, a, b)
    ensures BasisDigest(f, codec, a) == BasisDigest(f, codec, b)
            ==> RepairedReview(f, ReviewOf(f, a)) == RepairedReview(f, ReviewOf(f, b))
                && FilesDigest(f, a.merged) == FilesDigest(f, b.merged)
    ensures Utf8Review(f, a) && Utf8Review(f, b) ==>
            (BasisDigest(f, codec, a) == BasisDigest(f, codec, b) <==>
              && a.assignment == b.assignment
              && a.target.id == b.target.id && a.target.identityHome == b.target.identityHome
              && FilesDigest(f, a.merged) == FilesDigest(f, b.merged)
              && multiset(a.conflicts) == multiset(b.conflicts))
  {
    hide SortedChanges, FilesDigest, Ascii;
    SortedChangesCanonical(a.conflicts, b.conflicts);
    DigestIsUtf8(f, a.merged);
    DigestIsUtf8(f, b.merged);
  }

  lemma DigestIsUtf8(f: Foreign, files: Files)
    requires f.LawfulCodec() && f.LawfulHash()
    ensures f.Utf8(FilesDigest(f, files))
  {
  }

  /** So a digest issued for encodable files with UTF-8 paths stands for those files alone. */
  lemma ReviewIdentifiesFiles(f: Foreign, codec: ReviewCodec, a: Basis, b: Basis)
    requires codec.Lawful(f) && f.LawfulCodec() && f.LawfulHash()
    requires ReviewsApart(f, codec, a, b) && f.EncodingsApart(a.merged, b.merged)
    requires FilesValid(f, a.merged) && FilesValid(f, b.merged)
    requires Utf8Paths(f, a.merged) && Utf8Paths(f, b.merged) && Encodable(f, a.merged)
    requires BasisDigest(f, codec, a) == BasisDigest(f, codec, b)
    ensures a.merged == b.merged
  {
    hide FilesDigest, FilesValid, BasisDigest, Ascii;
    ReviewDigestExactly(f, codec, a, b);
    DigestIdentifies(f, a.merged, b.merged);
  }

  /** Review digests tell the files of the two situations apart if they differ: the files of one have
      an encoding, all paths are UTF-8 and nothing collides. */
  ghost predicate Distinguishable(f: Foreign, codec: ReviewCodec, a: Basis, b: Basis) {
    && Encodable(f, a.merged) && Utf8Paths(f, a.merged) && Utf8Paths(f, b.merged)
    && f.EncodingsApart(a.merged, b.merged) && ReviewsApart(f, codec, a, b)
  }

  /** It does not when the merged files have no encoding within the limit: then any other such
      files pass for the reviewed ones. */
  lemma UnencodableReviewsCoincide(f: Foreign, codec: ReviewCodec, a: Basis, b: Basis)
    requires !Encodable(f, a.merged) && !Encodable(f, b.merged)
    requires a == b.(merged := a.merged)
    ensures BasisDigest(f, codec, a) == BasisDigest(f, codec, b)
  {
  }

  /** Two situations that differ only in the files to be written and share their review digest. */
  lemma LargeReviewsCoincide(f: Foreign, codec: ReviewCodec, b: Basis)
    requires f.LawfulCodec() && FoldDistinct(f, LARGE_PATHS)
    requires forall p | p in LARGE_PATHS :: ValidFile(f, p, Large('a')[p]) && ValidFile(f, p, Large('b')[p])
    ensures BasisDigest(f, codec, b.(merged := Large('a'))) == BasisDigest(f, codec, b.(merged := Large('b')))
    ensures Large('a') != Large('b')
  {
    hide ValidFile, FoldDistinct, FilesDigest;
    LargePacksShareDigest(f);
  }

  // ---- The service --------------------------------------------------------------------------------

  datatype ShownPlan = ShownPlan(assignment: Assignment, digest: string, files: seq<string>, conflicts: seq<Change>)
  datatype Applied = Applied(packId: string, version: string, digest: string, files: seq<string>)
  datatype Promotion = Promotion(alias: string, packId: string, fromVersion: string, toVersion: string,
                                 changes: seq<Change>, digest: string)

  class Service {
    const repository: Repository
    const homes: map<string, Projector>
    const f: Foreign
    const codec: ReviewCodec

    ghost predicate Valid()
      reads this, repository, set h | h in homes :: homes[h].fs
    {
      && repository.f == f && repository.Keyed()
      && (forall h | h in homes :: homes[h].f == f && homes[h].fs.Valid())
    }

    constructor (repository: Repository, homes: map<string, Projector>, codec: ReviewCodec)
      requires repository.Keyed()
      requires forall h | h in homes :: homes[h].f == repository.f && homes[h].fs.Valid()
      ensures Valid() && this.repository == repository && this.homes == homes && this.codec == codec
    {
      this.repository, this.homes, this.f, this.codec := repository, homes, repository.f, codec;
    }

    /** The configuration in effect, as a function of the repository. */
    ghost function InEffect(alias: string): Result<Effective, Error>
      reads repository`assignments, repository`packs, repository`overrides
    {
      if alias !in repository.assignments then Err(NoAssignment)
      else
        var a := repository.assignments[alias];
        if (a.packId, a.version) !in repository.packs then Err(NotFound)
        else
          var pack := repository.packs[(a.packId, a.version)];
          if pack.state != Approved then Err(NotApproved)
          else
            match Merged(f, pack, repository.OverridesOf(alias))
            case Ok(merged) => Ok(Effective(a, pack, merged))
            case Err(e) => Err(e)
    }

    /** The alias's assignment, its approved and valid pack, and its files under the overrides
        of the alias. */
    ghost predicate InForce(alias: string, e: Effective)
      reads repository`assignments, repository`packs, repository`overrides
    {
      && alias in repository.assignments && e.assignment == repository.assignments[alias]
      && (e.assignment.packId, e.assignment.version) in repository.packs
      && e.pack == repository.packs[(e.assignment.packId, e.assignment.version)]
      && e.pack.state == Approved && PackValid(f, e.pack) && FilesValid(f, e.merged)
      && Overlaid(e.pack.files, if alias in repository.overrides then repository.overrides[alias] else map[], e.merged)
    }

    lemma InEffectIsInForce(alias: string)
      ensures InEffect(alias).Ok? ==> InForce(alias, InEffect(alias).value)
    {
      hide FilesValid, PackValid, Merged, Overlaid;
      if InEffect(alias).Ok? {
        MergedIsOverlaid(f, InEffect(alias).value.pack, repository.OverridesOf(alias));
      }
    }

    method EffectiveFor(alias: string) returns (r: Result<Effective, Error>)
      requires Valid()
      modifies repository`calls
      ensures repository.calls >= old(repository.calls)
      ensures r.Ok? ==> r == InEffect(alias)
      ensures r.Ok? ==> InForce(alias, r.value)
      ensures r.Err? ==> r == InEffect(alias) || !repository.Healthy(old(repository.calls), repository.calls)
    {
      hide Merged, InForce, Overlaid, PackValid, FilesValid;
      var assignment := repository.GetAssignment(alias);
      if assignment.Err? { return Err(assignment.error); }
      var pack := repository.GetPack(assignment.value.packId, assignment.value.version);
      if pack.Err? { return Err(pack.error); }
      if pack.value.state != Approved { return Err(NotApproved); }
      var overrides := repository.GetOverrides(alias);
      if overrides.Err? { return Err(overrides.error); }
      var merged := MergeFiles(f, pack.value, overrides.value);
      if merged.Err? { return Err(merged.error); }
      InEffectIsInForce(alias);
      return Ok(Effective(assignment.value, pack.value, merged.value));
    }

    /** An accepted override never breaks the profile: what is in effect afterwards is what was in
        effect before, updated at that path. */
    method SetOverride(alias: string, path: string, content: string) returns (error: Option<Error>)
      requires Valid()
      modifies repository`calls, repository`overrides
      ensures Valid()
      ensures error.Some? ==> repository.overrides == old(repository.overrides)
      ensures error.None? ==> old(InEffect(alias)).Ok? && FilesValid(f, map[path := content])
      ensures error.None? ==>
                var before := old(InEffect(alias)).value;
                InEffect(alias) == Ok(before.(merged := before.merged[path := content]))
      ensures error.None? ==> forall other | other != alias :: InEffect(other) == old(InEffect(other))
      ensures error.Some? ==>
                || !FilesValid(f, map[path := content]) || old(InEffect(alias)).Err?
                || !FilesValid(f, old(InEffect(alias)).value.merged[path := content])
                || alias !in repository.profiles || repository.profiles[alias].status != STATUS_READY
                || repository.profiles[alias].homeOwnership != OWNERSHIP_MANAGED
                || !repository.Healthy(old(repository.calls), repository.calls)
    {
      hide FilesValid, Merged, InForce;
      var ok := ValidateFiles(f, map[path := content]);
      if !ok { return Some(Invalid); }
      var current := EffectiveFor(alias);
      if current.Err? { return Some(current.error); }
      ok := ValidateFiles(f, current.value.merged[path := content]);
      if !ok { return Some(Invalid); }
      ghost var was := repository.OverridesOf(alias);
      OverrideMerges(f, current.value.pack, was, current.value.merged, path, content);
      error := repository.SetOverride(alias, path, content);
    }

    static lemma OverrideMerges(f: Foreign, pack: Pack, overrides: Files, merged: Files, path: string, content: string)
      requires Merged(f, pack, overrides) == Ok(merged) && FilesValid(f, merged[path := content])
      ensures Merged(f, pack, overrides[path := content]) == Ok(merged[path := content])
    {
      OverrideStaysMergeable(f, pack, overrides, path, content);
    }

    /** What a preview taken now would show. */
    ghost function BasisNow(alias: string): Option<Basis>
      reads repository`assignments, repository`packs, repository`overrides, repository`profiles,
            set h | h in homes :: homes[h].fs`disk
    {
      if InEffect(alias).Err? || alias !in repository.profiles then None
      else
        var target := repository.profiles[alias];
        if !Manageable(target) || target.identityHome !in homes then None
        else
          var disk := homes[target.identityHome].fs.disk;
          if Previous(f, disk).None? then None
          else
            var merged := InEffect(alias).value.merged;
            Some(Basis(InEffect(alias).value.assignment, target, merged,
                       Conflicts(f, disk, Previous(f, disk).value, merged)))
    }

    /** When there is a basis, and which. */
    lemma BasisIs(alias: string)
      ensures BasisNow(alias).Some? ==>
                && InEffect(alias).Ok? && FilesValid(f, InEffect(alias).value.merged)
                && alias in repository.profiles && Manageable(repository.profiles[alias])
                && repository.profiles[alias].identityHome in homes
      ensures InEffect(alias).Ok? && alias in repository.profiles && Manageable(repository.profiles[alias])
              && repository.profiles[alias].identityHome in homes ==>
                BasisNow(alias) == BasisAt(homes[repository.profiles[alias].identityHome].fs.disk,
                                           InEffect(alias).value, repository.profiles[alias])
    {
    }

    lemma InEffectIsValid(alias: string)
      ensures InEffect(alias).Ok? ==> FilesValid(f, InEffect(alias).value.merged)
    {
    }

    /** Shows the plan for review. Its digest is the digest of the situation it was taken in. */
    method Preview(alias: string) returns (r: Result<ShownPlan, Error>)
      requires Valid()
      modifies repository`calls, set h | h in homes :: homes[h].fs`calls
      ensures Valid() && repository.calls >= old(repository.calls)
      ensures forall h | h in homes :: homes[h].fs.calls >= old(homes[h].fs.calls)
      ensures BasisNow(alias) == old(BasisNow(alias)) && InEffect(alias) == old(InEffect(alias))
      ensures r.Ok? ==> BasisNow(alias).Some? && ReadyAndManaged(BasisNow(alias).value.target)
      ensures r.Err? && BasisNow(alias).Some? ==>
                var fs := homes[BasisNow(alias).value.target.identityHome].fs;
                || !repository.Healthy(old(repository.calls), repository.calls)
                || !fs.Undisturbed(old(fs.calls), fs.calls)
      ensures r.Ok? ==>
                var b := BasisNow(alias).value;
                r.value == ShownPlan(b.assignment, BasisDigest(f, codec, b), SortedKeys(b.merged.Keys), b.conflicts)
    {
      hide FilesValid, Merged, Previous, Conflicts, FilesDigest, Manageable, SortedKeys, SortedChanges, Increasing,
           BasisDigest,
           repository.Keyed, FileSystem.Valid, BasisNow, InEffect, InForce, ReadyAndManaged, Written;
      BasisIs(alias);
      var current := EffectiveFor(alias);
      if current.Err? { return Err(current.error); }
      var e := current.value;
      var target := repository.GetProfile(alias);
      if target.Err? { return Err(target.error); }
      var t := target.value;
      if !Manageable(t) { return Err(AssignmentInvalid); }
      if t.identityHome !in homes { return Err(ProjectionFailed); }
      InEffectIsValid(alias);
      ManageableExactly(t);
      r := PreviewHome(homes[t.identityHome], t, e);
    }

    /** The part of a preview that looks at the home. */
    method PreviewHome(projector: Projector, t: ProfileTarget, e: Effective) returns (r: Result<ShownPlan, Error>)
      requires projector.f == f && projector.fs.Valid() && FilesValid(f, e.merged)
      modifies projector.fs`calls
      ensures projector.fs.Valid() && projector.fs.calls >= old(projector.fs.calls)
      ensures r.Ok? ==> BasisAt(projector.fs.disk, e, t).Some?
      ensures r.Ok? ==>
                var b := BasisAt(projector.fs.disk, e, t).value;
                r.value == ShownPlan(b.assignment, BasisDigest(f, codec, b), SortedKeys(b.merged.Keys), b.conflicts)
      ensures r.Err? ==> BasisAt(projector.fs.disk, e, t).None?
                         || !projector.fs.Undisturbed(old(projector.fs.calls), projector.fs.calls)
    {
      hide FilesValid, Previous, Conflicts, FilesDigest, SortedKeys, SortedChanges, Increasing;
      var plan := projector.Preview(e.merged);
      if plan.Err? { return Err(plan.error); }
      var filesDigest := DigestFiles(f, e.merged);
      var paths := SortedPaths(e.merged.Keys);
      var digest := ReviewDigest(e.assignment, t, filesDigest, plan.value.conflicts);
      return Ok(ShownPlan(e.assignment, digest, paths, plan.value.conflicts));
    }

    function ReviewDigest(a: Assignment, t: ProfileTarget, filesDigest: string, conflicts: seq<Change>): string {
      f.sha(codec.encodeReview(Review(a, t.id, t.identityHome, filesDigest, SortedChanges(conflicts))))
    }

    /** What a preview of these merged files would show of one home. */
    ghost function BasisAt(d: Disk, e: Effective, t: ProfileTarget): Option<Basis> {
      match Previous(f, d)
      case Some(previous) => Some(Basis(e.assignment, t, e.merged, Conflicts(f, d, previous, e.merged)))
      case None => None
    }

    /** The part of a reviewed apply that runs while the profile is stopped: preview again, compare
        the digest, and project only if the conflicts are still the previewed ones. */
    method ApplyStopped(projector: Projector, t: ProfileTarget, e: Effective, expectedDigest: string)
      returns (r: Result<Report, Error>, kept: bool)
      requires projector.f == f && projector.fs.Valid() && FilesValid(f, e.merged)
      modifies projector.fs`calls, projector.fs`disk, projector.fs`stages
      ensures projector.fs.Valid() && projector.fs.calls >= old(projector.fs.calls)
      ensures r.Ok? ==> BasisAt(old(projector.fs.disk), e, t).Some?
                        && BasisDigest(f, codec, BasisAt(old(projector.fs.disk), e, t).value) == expectedDigest
                        && Projected(f, old(projector.fs.disk), Previous(f, old(projector.fs.disk)).value, e.merged,
                                     projector.fs.disk)
      ensures r.Err? ==> Projector.NothingLost(old(projector.fs.disk), projector.fs.disk, old(projector.fs.stages),
                                               projector.Affected(old(projector.fs.disk), e.merged), kept)
      ensures r.Err? && BasisAt(old(projector.fs.disk), e, t).Some?
              && BasisDigest(f, codec, BasisAt(old(projector.fs.disk), e, t).value) == expectedDigest
              ==> !projector.fs.Undisturbed(old(projector.fs.calls), projector.fs.calls)
    {
      hide FilesValid, Previous, Conflicts, FilesDigest, Projected, SortedChanges;
      ghost var d, stages := projector.fs.disk, projector.fs.stages;
      Projector.NothingHappened(d, stages, projector.Affected(d, e.merged));
      kept := false;
      var plan := projector.Preview(e.merged);
      if plan.Err? { return Err(plan.error), false; }
      var filesDigest := DigestFiles(f, e.merged);
      if ReviewDigest(e.assignment, t, filesDigest, plan.value.conflicts) != expectedDigest {
        return Err(Invalid), false;
      }
      r, kept := projector.Project(e.merged, Some(plan.value.conflicts));
    }

    /** The profile's target, if it can be written to: ready, managed, stopped and at a known home. */
    method StoppedTarget(alias: string) returns (r: Option<ProfileTarget>)
      modifies repository`calls
      ensures repository.calls == old(repository.calls) + 1
      ensures r.None? ==> alias !in repository.profiles || repository.profiles[alias].activeLaunch
                          || !Manageable(repository.profiles[alias])
                          || repository.profiles[alias].identityHome !in homes
                          || !repository.Healthy(old(repository.calls), repository.calls)
      ensures r.Some? ==> alias in repository.profiles && r.value == repository.profiles[alias] && Manageable(r.value)
                          && !r.value.activeLaunch && r.value.identityHome in homes
    {
      var target := repository.GetProfile(alias);
      if target.Err? { return None; }
      var t := target.value;
      if !Manageable(t) || t.activeLaunch || t.identityHome !in homes { return None; }
      return Some(t);
    }

    /** Applies only what the digest stands for: success means a preview taken on entry would have
        carried this digest, and the home now is the projection of the files that preview showed.
        When nothing changed since the review and no call fails, it succeeds. */
    method ApplyReviewed(alias: string, expectedDigest: string, reviewed: bool)
      returns (r: Result<Applied, Error>, kept: bool)
      requires Valid()
      modifies repository`calls, set h | h in homes :: homes[h].fs`calls,
               set h | h in homes :: homes[h].fs`disk, set h | h in homes :: homes[h].fs`stages
      ensures Valid() && repository.calls >= old(repository.calls)
      ensures r.Ok? ==> reviewed && !Blank(expectedDigest) && old(BasisNow(alias)).Some?
      ensures r.Ok? ==> Written(expectedDigest) && ReadyAndManaged(old(BasisNow(alias)).value.target)
      ensures r.Ok? ==>
                var b, fs := old(BasisNow(alias)).value, homes[old(BasisNow(alias)).value.target.identityHome].fs;
                && BasisDigest(f, codec, b) == expectedDigest && !b.target.activeLaunch
                && Projected(f, old(fs.disk), Previous(f, old(fs.disk)).value, b.merged, fs.disk)
                && r.value == Applied(b.assignment.packId, old(InEffect(alias)).value.pack.version,
                                      FilesDigest(f, b.merged), SortedKeys(b.merged.Keys))
      ensures r.Ok? ==>
                var fs := homes[old(BasisNow(alias)).value.target.identityHome].fs;
                forall h | h in homes && homes[h].fs != fs :: homes[h].fs.disk == old(homes[h].fs.disk)
      ensures r.Err? ==> forall h | h in homes ::
                || homes[h].fs.disk == old(homes[h].fs.disk)
                || (old(InEffect(alias)).Ok?
                    && Projector.NothingLost(old(homes[h].fs.disk), homes[h].fs.disk, old(homes[h].fs.stages),
                         homes[h].Affected(old(homes[h].fs.disk), old(InEffect(alias)).value.merged), kept))
      ensures r.Err? && reviewed && !Blank(expectedDigest) && old(BasisNow(alias)).Some? ==>
                var b, fs := old(BasisNow(alias)).value, homes[old(BasisNow(alias)).value.target.identityHome].fs;
                || BasisDigest(f, codec, b) != expectedDigest
                || b.target.activeLaunch
                || !repository.Healthy(old(repository.calls), repository.calls)
                || !fs.Undisturbed(old(fs.calls), fs.calls)
    {
      hide FilesValid, Merged, Previous, Conflicts, FilesDigest, Projected, SortedKeys, BasisDigest, Manageable,
           Blank, Increasing,
           repository.Keyed, FileSystem.Valid, BasisNow, InEffect, InForce, ReadyAndManaged, Written;
      BasisIs(alias);
      kept := false;
      BlankExactly(expectedDigest);
      if !reviewed || Blank(expectedDigest) { return Err(Invalid), false; }
      var current := EffectiveFor(alias);
      if current.Err? { return Err(current.error), false; }
      var e := current.value;
      var target := StoppedTarget(alias);
      if target.None? { return Err(ProjectionFailed), false; }
      var t := target.value;
      InEffectIsValid(alias);
      ManageableExactly(t);
      var report;
      report, kept := ApplyStopped(homes[t.identityHome], t, e, expectedDigest);
      if report.Err? { return Err(if report.error == Invalid then Invalid else ProjectionFailed), kept; }
      var digest := DigestFiles(f, e.merged);
      var paths := SortedPaths(e.merged.Keys);
      return Ok(Applied(e.assignment.packId, e.pack.version, digest, paths)), false;
    }

    /** What was previewed can be applied: with the repository and the home left alone in between, a
        reviewed apply under the shown digest is refused only if the profile is running or a call
        fails, and it writes exactly the shown files. */
    method PreviewThenApply(alias: string)
      returns (plan: Result<ShownPlan, Error>, r: Result<Applied, Error>, kept: bool)
      requires Valid() && f.LawfulHash()
      modifies repository`calls, set h | h in homes :: homes[h].fs`calls,
               set h | h in homes :: homes[h].fs`disk, set h | h in homes :: homes[h].fs`stages
      ensures Valid()
      ensures plan.Ok? ==> old(BasisNow(alias)).Some?
      ensures plan.Err? && old(BasisNow(alias)).Some? ==>
                var fs := homes[old(BasisNow(alias)).value.target.identityHome].fs;
                || !repository.Healthy(old(repository.calls), repository.calls)
                || !fs.Undisturbed(old(fs.calls), fs.calls)
      ensures plan.Ok? && r.Ok? ==>
                var b, fs := old(BasisNow(alias)).value, homes[old(BasisNow(alias)).value.target.identityHome].fs;
                && plan.value.files == r.value.files == SortedKeys(b.merged.Keys)
                && plan.value.conflicts == b.conflicts
                && Projected(f, old(fs.disk), Previous(f, old(fs.disk)).value, b.merged, fs.disk)
      ensures plan.Ok? && r.Ok? ==>
                var fs := homes[old(BasisNow(alias)).value.target.identityHome].fs;
                forall h | h in homes && homes[h].fs != fs :: homes[h].fs.disk == old(homes[h].fs.disk)
      ensures plan.Ok? && r.Err? ==>
                var b, fs := old(BasisNow(alias)).value, homes[old(BasisNow(alias)).value.target.identityHome].fs;
                || b.target.activeLaunch
                || !repository.Healthy(old(repository.calls), repository.calls)
                || !fs.Undisturbed(old(fs.calls), fs.calls)
    {
      hide FilesValid, Previous, Conflicts, FilesDigest, Projected, SortedKeys, Manageable, InEffect, FileSystem.Valid;
      r, kept := Err(Invalid), false;
      plan := Preview(alias);
      if plan.Err? { return; }
      HexIsNotBlank(BasisDigest(f, codec, BasisNow(alias).value));
      r, kept := ApplyReviewed(alias, plan.value.digest, true);
    }

    /** An override between review and apply stops the apply: under the digest of the review only
        the reviewed files can be written. */
    method PreviewThenOverrideThenApply(alias: string, path: string, content: string)
      returns (plan: Result<ShownPlan, Error>, error: Option<Error>, r: Result<Applied, Error>)
      requires Valid() && codec.Lawful(f) && f.LawfulCodec() && f.LawfulHash()
      modifies repository`calls, repository`overrides, set h | h in homes :: homes[h].fs`calls,
               set h | h in homes :: homes[h].fs`disk, set h | h in homes :: homes[h].fs`stages
      ensures Valid()
      ensures plan.Ok? && error.None? && r.Ok? ==> old(BasisNow(alias)).Some? && InEffect(alias).Ok?
      ensures plan.Ok? && error.None? && r.Ok? ==>
                var reviewed := old(BasisNow(alias)).value;
                var applied := BasisAt(old(homes[repository.profiles[alias].identityHome].fs.disk),
                                       InEffect(alias).value, reviewed.target);
                && applied.Some? && applied.value.merged == reviewed.merged[path := content]
                && (applied.value.merged == reviewed.merged || !Distinguishable(f, codec, reviewed, applied.value))
    {
      hide FilesValid, Previous, Conflicts, FilesDigest, Projected, SortedKeys, Manageable, Merged, Blank, Increasing,
           repository.Keyed, FileSystem.Valid, BasisNow, InEffect, Ascii, BasisDigest, Distinguishable, ReviewOf,
           ReadyAndManaged, Overlaid, PackValid;
      error, r := None, Err(Invalid);
      plan := Preview(alias);
      if plan.Err? { return; }
      ghost var a := BasisNow(alias).value;
      BasisIs(alias);
      error := SetOverride(alias, path, content);
      if error.Some? { return; }
      BasisIs(alias);
      ghost var now := BasisNow(alias);
      var kept;
      r, kept := ApplyReviewed(alias, plan.value.digest, true);
      if r.Ok? { AppliedIsReviewed(f, codec, a, now.value); }
    }

    static lemma AppliedIsReviewed(f: Foreign, codec: ReviewCodec, a: Basis, b: Basis)
      requires codec.Lawful(f) && f.LawfulCodec() && f.LawfulHash() && FilesValid(f, a.merged)
              && FilesValid(f, b.merged)
      requires BasisDigest(f, codec, a) == BasisDigest(f, codec, b)
      ensures a.merged == b.merged || !Distinguishable(f, codec, a, b)
    {
      hide FilesValid, BasisDigest, Utf8Paths, Ascii;
      if Distinguishable(f, codec, a, b) { ReviewIdentifiesFiles(f, codec, a, b); }
    }

    static lemma HexIsNotBlank(s: string)
      requires HexDigest(s)
      ensures !Blank(s)
    {
      assert s[0] in s;
    }

    // ---- Promotion --------------------------------------------------------------------------------

    ghost function PromotionReviewOf(e: Effective, version: string, changes: seq<Change>): PromotionReview {
      PromotionReview(e.assignment, e.pack.digest, version, FilesDigest(f, e.merged), SortedChanges(changes))
    }

    /** What a promotion document says, and of what. */
    lemma PromotionCovers(e: Effective, version: string, changes: seq<Change>)
      ensures var r := PromotionReviewOf(e, version, changes);
              && r.assignment == e.assignment && r.packDigest == e.pack.digest && r.toVersion == version
              && r.filesDigest == FilesDigest(f, e.merged) && multiset(r.changes) == multiset(changes)
              && Ordered(r.changes, ChangeLe)
    {
      hide FilesDigest;
      ChangeOrder();
      SortOrdered(changes, ChangeLe);
    }

    ghost function PromotionDocument(e: Effective, version: string, changes: seq<Change>): string {
      codec.encodePromotion(PromotionReviewOf(e, version, changes))
    }

    ghost function PromotionDigest(e: Effective, version: string, changes: seq<Change>): string {
      f.sha(PromotionDocument(e, version, changes))
    }

    ghost predicate Promotable(e: Effective, version: string) {
      ValidIdentifier(version, MAX_IDENTIFIER) && version != e.pack.version
    }

    method PreviewPromotion(alias: string, version: string) returns (r: Result<Promotion, Error>)
      requires Valid()
      modifies repository`calls
      ensures Valid() && repository.calls >= old(repository.calls)
      ensures r.Ok? ==> InEffect(alias).Ok? && Promotable(InEffect(alias).value, version)
      ensures r.Err? ==> InEffect(alias).Err? || !Promotable(InEffect(alias).value, version)
                         || !repository.Healthy(old(repository.calls), repository.calls)
      ensures r.Ok? ==>
                var e := InEffect(alias).value;
                && ExactChanges(e.pack.files, e.merged, r.value.changes)
                && Listed(e.pack.files, e.merged, r.value.changes)
                && version != e.pack.version
                && r.value == Promotion(e.assignment.alias, e.pack.id, e.pack.version, version, r.value.changes,
                                        PromotionDigest(e, version, r.value.changes))
    {
      hide FilesValid, Merged, FilesDigest, SortedChanges, ExactChanges, ValidIdentifier, InForce;
      var current := EffectiveFor(alias);
      if current.Err? { return Err(current.error); }
      var e := current.value;
      if !ValidIdentifier(version, MAX_IDENTIFIER) || version == e.pack.version { return Err(Invalid); }
      var changes := Changes(e.pack.files, e.merged);
      var filesDigest := DigestFiles(f, e.merged);
      var digest := f.sha(codec.encodePromotion(
        PromotionReview(e.assignment, e.pack.digest, version, filesDigest, SortedChanges(changes))));
      return Ok(Promotion(e.assignment.alias, e.pack.id, e.pack.version, version, changes, digest));
    }

    /** A merge under a valid version is a valid pack. */
    static lemma NextPackValid(f: Foreign, pack: Pack, overrides: Files, next: Pack)
      requires Merged(f, pack, overrides) == Ok(next.files) && next.id == pack.id
      requires ValidIdentifier(next.version, MAX_IDENTIFIER) && next.digest == FilesDigest(f, next.files)
      ensures PackValid(f, next)
      ensures f.LawfulHash() && Encodable(f, next.files) ==> |next.digest| == 64
    {
      hide FilesValid, ValidIdentifier;
      assert f.LawfulHash() ==> HexDigest(f.sha(f.encodeFiles(CanonicalDoc(next.files))));
    }

    /** Publishes exactly the merge the digest stands for, under a version that did not exist, and
        leaves every profile with the configuration it has. */
    method PromoteReviewed(alias: string, version: string, expectedDigest: string, reviewed: bool)
      returns (r: Result<Pack, Error>, changes: seq<Change>)
      requires Valid()
      modifies repository`calls, repository`packs
      ensures Valid()
      ensures r.Err? ==> repository.packs == old(repository.packs)
      ensures r.Ok? ==> reviewed && old(InEffect(alias)).Ok?
      ensures r.Ok? ==>
                var e := old(InEffect(alias)).value;
                && Promotable(e, version) && ExactChanges(e.pack.files, e.merged, changes)
                && PromotionDigest(e, version, changes) == expectedDigest
                && r.value == Pack(e.pack.id, version, Approved, FilesDigest(f, e.merged), e.merged)
                && Encodable(f, e.merged)
                && (e.pack.id, version) !in old(repository.packs)
                && repository.packs == old(repository.packs)[(e.pack.id, version) := r.value]
      ensures forall other | old(InEffect(other)).Ok? :: InEffect(other) == old(InEffect(other))
      ensures repository.calls >= old(repository.calls)
      ensures r.Err? && reviewed && !Blank(expectedDigest) && InEffect(alias).Ok? && f.LawfulHash() ==>
                var e := InEffect(alias).value;
                || !Promotable(e, version) || !Encodable(f, e.merged)
                || (e.pack.id, version) in repository.packs
                || (ExactChanges(e.pack.files, e.merged, changes)
                    && PromotionDigest(e, version, changes) != expectedDigest)
                || !repository.Healthy(old(repository.calls), repository.calls)
    {
      hide FilesValid, Merged, FilesDigest, SortedChanges, ExactChanges, ValidIdentifier, Encodable, PackValid, InForce,
           Listed, Blank;
      changes := [];
      if !reviewed || Blank(expectedDigest) { return Err(Invalid), changes; }
      var current := EffectiveFor(alias);
      if current.Err? { return Err(current.error), changes; }
      var e := current.value;
      if !ValidIdentifier(version, MAX_IDENTIFIER) || version == e.pack.version { return Err(Invalid), changes; }
      changes := Changes(e.pack.files, e.merged);
      var filesDigest := DigestFiles(f, e.merged);
      var digest := f.sha(codec.encodePromotion(
        PromotionReview(e.assignment, e.pack.digest, version, filesDigest, SortedChanges(changes))));
      if digest != expectedDigest { return Err(Invalid), changes; }
      var next := Pack(e.pack.id, version, Approved, filesDigest, e.merged);
      NextPackValid(f, e.pack, repository.OverridesOf(alias), next);
      assert repository.packs[(e.pack.id, e.pack.version)] == e.pack;
      var error := repository.PromotePack(next, e.pack.version);
      if error.Some? { return Err(error.value), changes; }
      return Ok(next), changes;
    }

    /** What was previewed can be promoted: with the repository left alone in between, a reviewed
        promotion under the shown digest is refused only if the merge has no encoding, the version is
        taken or a call fails. The shown changes, replayed on the old version, give the new one, and
        remove nothing. */
    method PreviewThenPromote(alias: string, version: string)
      returns (preview: Result<Promotion, Error>, r: Result<Pack, Error>)
      requires Valid() && f.LawfulHash()
      modifies repository`calls, repository`packs
      ensures Valid()
      ensures preview.Ok? ==> old(InEffect(alias)).Ok?
      ensures preview.Ok? && r.Ok? ==>
                var e := old(InEffect(alias)).value;
                && r.value == Pack(e.pack.id, version, Approved, FilesDigest(f, e.merged), e.merged)
                && Replay(e.pack.files, preview.value.changes, r.value.files) == r.value.files
                && forall c | c in preview.value.changes :: !c.kind.Removed?
      ensures preview.Ok? && r.Err? ==>
                var e := old(InEffect(alias)).value;
                || !Encodable(f, e.merged) || (e.pack.id, version) in old(repository.packs)
                || !repository.Healthy(old(repository.calls), repository.calls)
    {
      hide Merged, FilesDigest, SortedChanges, ExactChanges, ValidIdentifier, Encodable, repository.Keyed, Blank;
      r := Err(Invalid);
      preview := PreviewPromotion(alias, version);
      if preview.Err? { return; }
      ghost var e := InEffect(alias).value;
      HexIsNotBlank(f.sha(PromotionDocument(e, version, preview.value.changes)));
      var changes;
      r, changes := PromoteReviewed(alias, version, preview.value.digest, true);
      if ExactChanges(e.pack.files, e.merged, changes) {
        ExactChangesUnique(e.pack.files, e.merged, changes, preview.value.changes);
      }
      ReplayGivesAfter(e.pack.files, e.merged, preview.value.changes);
      PromotionNeverRemoves(f, e.pack, repository.OverridesOf(alias), preview.value.changes);
    }

    /** A promotion, unlike an apply, is refused for files without an encoding, so with UTF-8 paths
        its digest always stands for one merge under one version, and for one assignment up to the
        repair of broken strings. */
    lemma PromotionIdentifies(a: Effective, b: Effective, versionA: string, versionB: string,
                              changesA: seq<Change>, changesB: seq<Change>)
      requires codec.Lawful(f) && f.LawfulCodec() && f.LawfulHash() && f.EncodingsApart(a.merged, b.merged)
      requires !f.Collide(PromotionDocument(a, versionA, changesA), PromotionDocument(b, versionB, changesB))
      requires FilesValid(f, a.merged) && FilesValid(f, b.merged) && Promotable(a, versionA) && Promotable(b, versionB)
      requires Utf8Paths(f, a.merged) && Utf8Paths(f, b.merged) && Encodable(f, b.merged)
      requires PromotionDigest(a, versionA, changesA) == PromotionDigest(b, versionB, changesB)
      ensures RepairedAssignment(f, a.assignment) == RepairedAssignment(f, b.assignment)
      ensures versionA == versionB && a.merged == b.merged && f.repair(a.pack.digest) == f.repair(b.pack.digest)
      ensures RepairedChanges(f, SortedChanges(changesA)) == RepairedChanges(f, SortedChanges(changesB))
    {
      hide FilesValid, FilesDigest, Utf8Paths, codec.Lawful;
      var x, y := PromotionReviewOf(a, versionA, changesA), PromotionReviewOf(b, versionB, changesB);
      EqualDocuments(f, codec, x, y);
      DigestIsUtf8(f, a.merged);
      DigestIsUtf8(f, b.merged);
      IdentifierIsUtf8(f, versionA);
      IdentifierIsUtf8(f, versionB);
      RepairedParts(f, x, y);
      DigestIdentifies(f, b.merged, a.merged);
    }

    static lemma EqualDocuments(f: Foreign, codec: ReviewCodec, x: PromotionReview, y: PromotionReview)
      requires codec.Lawful(f) && codec.encodePromotion(x) == codec.encodePromotion(y)
      ensures RepairedPromotion(f, x) == RepairedPromotion(f, y)
    {
    }

    static lemma RepairedParts(f: Foreign, x: PromotionReview, y: PromotionReview)
      requires RepairedPromotion(f, x) == RepairedPromotion(f, y)
      ensures RepairedAssignment(f, x.assignment) == RepairedAssignment(f, y.assignment)
      ensures f.repair(x.toVersion) == f.repair(y.toVersion) && f.repair(x.filesDigest) == f.repair(y.filesDigest)
      ensures f.repair(x.packDigest) == f.repair(y.packDigest)
              && RepairedChanges(f, x.changes) == RepairedChanges(f, y.changes)
    {
    }

    static lemma IdentifierIsUtf8(f: Foreign, s: string)
      requires f.LawfulCodec() && ValidIdentifier(s, MAX_IDENTIFIER)
      ensures f.Utf8(s)
    {
    }
  }
}
