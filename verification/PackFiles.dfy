/** File sets of a configuration pack: validation over maps in any iteration order, the canonical
    encoding and its digest, and exact change lists. A char stands for one byte of a Go string. */
module PackFiles {
  import opened Wrappers
  import opened Ordering

  const MAX_IDENTIFIER := 64
  const MAX_FILES := 256
  const MAX_PATH := 256
  const MAX_FILE_BYTES := 0x10_0000
  const MAX_PACK_BYTES := 0x80_0000
  const NUL: char := 0 as char

  /** Names a single-segment path may have. */
  const ROOT_NAMES := {"manifest.toml", "plugins.lock", "AGENTS.md", "config.toml"}

  type Files = map<string, string>

  datatype CanonicalFile = CanonicalFile(path: string, content: string)

  datatype ChangeKind = Added | Modified | Removed
  datatype Change = Change(path: string, kind: ChangeKind)

  datatype State = Draft | Approved | Superseded
  datatype Pack = Pack(id: string, version: string, state: State, digest: string, files: Files)

  datatype Error =
    | Invalid
    | NotFound
    | NotApproved
    | AssignmentInvalid
    | NoAssignment
    | ProjectionFailed
    | StoreFailed

  /** The libraries this package calls: SHA-256 in hex, the JSON encoder's replacement of bytes
      that are not UTF-8, lower-casing, the path and content rules that look only at one file,
      and the JSON codecs of the canonical file list and of the projection manifest. */
  datatype Foreign = Foreign(
    sha: string -> string,
    repair: string -> string,
    fold: string -> string,
    pathRule: string -> bool,
    contentRule: (string, string) -> bool,
    encodeFiles: seq<CanonicalFile> -> string,
    decodeFiles: string -> Option<seq<CanonicalFile>>,
    encodeManifest: Files -> string,
    decodeManifest: string -> Option<Files>,
    decodeLegacy: string -> Option<seq<string>>)
  {
    predicate Utf8(s: string) {
      repair(s) == s
    }

    function Repaired(doc: seq<CanonicalFile>): seq<CanonicalFile> {
      seq(|doc|, i requires 0 <= i < |doc| => CanonicalFile(repair(doc[i].path), repair(doc[i].content)))
    }

    /** What JSON promises of the canonical list: decoding gives back the repaired list, and the
        bytes hold every content byte and more. */
    ghost predicate LawfulCodec() {
      && (forall s :: Utf8(repair(s)))
      && (forall s | Ascii(s) :: Utf8(s))
      && (forall doc :: decodeFiles(encodeFiles(doc)) == Some(Repaired(doc)))
      && (forall doc :: |encodeFiles(doc)| > ContentBytes(doc))
    }

    /** SHA-256 in hex is 64 hex digits; no more is assumed of it. */
    ghost predicate LawfulHash() {
      forall s :: HexDigest(sha(s))
    }

    /** A manifest of UTF-8 paths and hex digests reads back as it was written. */
    ghost predicate LawfulManifest() {
      forall m | (forall p | p in m :: Utf8(p) && HexDigest(m[p])) :: decodeManifest(encodeManifest(m)) == Some(m)
    }

    /** x and y are different texts with one SHA-256. Statements about digests exclude this for the
        two texts they compare and for no others: some collision exists, since digests are finite. */
    ghost predicate Collide(x: string, y: string) {
      x != y && sha(x) == sha(y)
    }

    /** The canonical encodings of two file sets do not collide. */
    ghost predicate EncodingsApart(a: Files, b: Files) {
      !Collide(encodeFiles(CanonicalDoc(a)), encodeFiles(CanonicalDoc(b)))
    }
  }

  predicate Ascii(s: string) {
    forall c | c in s :: c < 128 as char
  }

  predicate HexDigest(s: string) {
    |s| == 64 && forall c | c in s :: '0' <= c <= '9' || 'a' <= c <= 'f' || 'A' <= c <= 'F'
  }

  function ContentBytes(doc: seq<CanonicalFile>): nat {
    if doc == [] then 0 else ContentBytes(doc[..|doc| - 1]) + |doc[|doc| - 1].content|
  }

  // ---- Validation ---------------------------------------------------------------------------

  predicate ValidPath(f: Foreign, p: string) {
    && p != ""
    && |p| <= MAX_PATH
    && '\\' !in p
    && p[0] != '/'
    && ('/' !in p ==> p in ROOT_NAMES)
    && f.pathRule(p)
  }

  predicate ValidFile(f: Foreign, p: string, content: string) {
    && ValidPath(f, p)
    && f.Utf8(content)
    && NUL !in content
    && |content| <= MAX_FILE_BYTES
    && f.contentRule(p, content)
  }

  ghost predicate FoldDistinct(f: Foreign, keys: set<string>) {
    forall p, q | p in keys && q in keys && p != q :: f.fold(p) != f.fold(q)
  }

  /** Bytes of the contents at the given paths. */
  ghost function Total(files: Files, keys: set<string>): nat
    requires keys <= files.Keys
  {
    if keys == {} then 0 else
      var p :| p in keys;
      |files[p]| + Total(files, keys - {p})
  }

  lemma {:induction false} TotalRemove(files: Files, keys: set<string>, p: string)
    requires keys <= files.Keys && p in keys
    ensures Total(files, keys) == |files[p]| + Total(files, keys - {p})
    decreases keys
  {
    var q :| q in keys && Total(files, keys) == |files[q]| + Total(files, keys - {q});
    if p != q {
      TotalRemove(files, keys - {q}, p);
      TotalRemove(files, keys - {p}, q);
      assert keys - {q} - {p} == keys - {p} - {q};
    }
  }

  lemma {:induction false} TotalMonotone(small: Files, big: Files, keys: set<string>, more: set<string>)
    requires keys <= small.Keys && more <= big.Keys && keys <= more
    requires forall p | p in keys :: small[p] == big[p]
    ensures Total(small, keys) <= Total(big, more)
    decreases more
  {
    if keys != {} {
      var p :| p in keys;
      TotalRemove(small, keys, p);
      TotalRemove(big, more, p);
      TotalMonotone(small, big, keys - {p}, more - {p});
    }
  }

  ghost predicate FilesValid(f: Foreign, files: Files) {
    && 0 < |files| <= MAX_FILES
    && (forall p | p in files :: ValidFile(f, p, files[p]))
    && FoldDistinct(f, files.Keys)
    && Total(files, files.Keys) <= MAX_PACK_BYTES
  }

  ghost function Folds(f: Foreign, keys: set<string>): set<string> {
    set p | p in keys :: f.fold(p)
  }

  /** One more key is distinct from the ones seen unless its folded form has been seen. */
  lemma NextFold(f: Foreign, keys: set<string>, seen: set<string>, p: string)
    requires seen <= keys && p in keys && p !in seen && FoldDistinct(f, seen)
    ensures Folds(f, seen + {p}) == Folds(f, seen) + {f.fold(p)}
    ensures if f.fold(p) in Folds(f, seen) then !FoldDistinct(f, keys) else FoldDistinct(f, seen + {p})
  {
  }

  lemma NextTotal(files: Files, seen: set<string>, p: string)
    requires seen <= files.Keys && p in files && p !in seen
    ensures Total(files, seen + {p}) == Total(files, seen) + |files[p]| <= Total(files, files.Keys)
  {
    TotalRemove(files, seen + {p}, p);
    assert seen + {p} - {p} == seen;
    TotalMonotone(files, files, seen + {p}, files.Keys);
  }

  /** The files at `seen` have been found valid, with these folded paths and this total. */
  ghost predicate Validated(f: Foreign, files: Files, seen: set<string>, projected: set<string>, total: nat) {
    && seen <= files.Keys
    && (forall p | p in seen :: ValidFile(f, p, files[p]))
    && FoldDistinct(f, seen) && projected == Folds(f, seen)
    && total == Total(files, seen) <= MAX_PACK_BYTES
  }

  /** What the validation loop learns about one more path. */
  lemma NextFile(f: Foreign, files: Files, seen: set<string>, projected: set<string>, total: nat, p: string)
    requires Validated(f, files, seen, projected, total) && p in files && p !in seen
    ensures if ValidFile(f, p, files[p]) && f.fold(p) !in projected && total + |files[p]| <= MAX_PACK_BYTES
            then Validated(f, files, seen + {p}, projected + {f.fold(p)}, total + |files[p]|)
            else !FilesValid(f, files)
  {
    hide ValidFile, FoldDistinct, Folds, Total;
    NextFold(f, files.Keys, seen, p);
    NextTotal(files, seen, p);
  }

  lemma ValidationBegins(f: Foreign, files: Files)
    ensures Validated(f, files, {}, {}, 0)
  {
  }

  lemma ValidationEnds(f: Foreign, files: Files, projected: set<string>, total: nat)
    requires Validated(f, files, files.Keys, projected, total) && 0 < |files| <= MAX_FILES
    ensures FilesValid(f, files)
  {
  }

  /** One turn of the validation loop. The running total may be compared early because it only
      grows. */
  method ValidateOne(f: Foreign, files: Files, ghost seen: set<string>, projected: set<string>, total: nat,
                     path: string)
    returns (ok: bool, projected': set<string>, total': nat)
    requires Validated(f, files, seen, projected, total) && path in files && path !in seen
    ensures ok ==> Validated(f, files, seen + {path}, projected', total')
    ensures !ok ==> !FilesValid(f, files)
  {
    hide ValidPath, FilesValid, Validated;
    projected', total' := projected, total;
    var content := files[path];
    NextFile(f, files, seen, projected, total, path);
    if !ValidPath(f, path) || f.fold(path) in projected { return false, projected', total'; }
    if !f.Utf8(content) || NUL in content || |content| > MAX_FILE_BYTES || !f.contentRule(path, content) {
      return false, projected', total';
    }
    projected' := projected + {f.fold(path)};
    total' := total + |content|;
    ok := total' <= MAX_PACK_BYTES;
  }

  /** Acceptance does not depend on the order the map is iterated in: `path` is any path left. */
  method ValidateFiles(f: Foreign, files: Files) returns (ok: bool)
    ensures ok <==> FilesValid(f, files)
  {
    hide FilesValid, Validated;
    SizedFiles(f, files);
    if |files| == 0 || |files| > MAX_FILES { return false; }
    var total: nat := 0;
    var projected: set<string> := {};
    var remaining := files.Keys;
    ValidationBegins(f, files);
    assert files.Keys - remaining == {};
    while remaining != {}
      invariant remaining <= files.Keys
      invariant Validated(f, files, files.Keys - remaining, projected, total)
      decreases remaining
    {
      var path :| path in remaining;
      ok, projected, total := ValidateOne(f, files, files.Keys - remaining, projected, total, path);
      if !ok { return; }
      assert files.Keys - (remaining - {path}) == files.Keys - remaining + {path};
      remaining := remaining - {path};
    }
    assert files.Keys - {} == files.Keys;
    ValidationEnds(f, files, projected, total);
    ok := true;
  }

  lemma SizedFiles(f: Foreign, files: Files)
    ensures FilesValid(f, files) ==> 0 < |files| <= MAX_FILES
  {
  }

  lemma {:induction false} SubsetSize<T>(a: set<T>, b: set<T>)
    requires a <= b
    ensures |a| <= |b|
  {
    if a != {} {
      var x :| x in a;
      SubsetSize(a - {x}, b - {x});
    }
  }

  /** Acceptance is closed under non-empty sub-maps. */
  lemma SubmapValid(f: Foreign, small: Files, big: Files)
    requires FilesValid(f, big) && |small| > 0
    requires small.Keys <= big.Keys && forall p | p in small :: small[p] == big[p]
    ensures FilesValid(f, small)
  {
    SubsetSize(small.Keys, big.Keys);
    TotalMonotone(small, big, small.Keys, big.Keys);
  }

  /** What acceptance means, in numbers. */
  lemma AcceptedFilesExactly(f: Foreign, files: Files)
    ensures FilesValid(f, files) <==>
              && 1 <= |files| <= 256
              && (forall p | p in files :: ValidFile(f, p, files[p]))
              && (forall p, q | p in files && q in files && f.fold(p) == f.fold(q) :: p == q)
              && Total(files, files.Keys) <= 8_388_608
  {
    hide ValidFile, Total;
  }

  lemma AcceptedFileExactly(f: Foreign, p: string, content: string)
    ensures ValidFile(f, p, content) <==>
              && 1 <= |p| <= 256 && p[0] != '/' && '\\' !in p && f.pathRule(p)
              && ('/' in p || p == "manifest.toml" || p == "plugins.lock" || p == "AGENTS.md" || p == "config.toml")
              && f.repair(content) == content && (0 as char) !in content && |content| <= 1_048_576
              && f.contentRule(p, content)
  {
  }

  // ---- Canonical encoding and digest ----------------------------------------------------------

  /** The sorted file list that is encoded. */
  ghost function CanonicalDoc(files: Files): seq<CanonicalFile> {
    var paths := SortedKeys(files.Keys);
    DocOver(files, paths)
  }

  ghost function DocOver(files: Files, paths: seq<string>): seq<CanonicalFile>
    requires Elements(paths) <= files.Keys
  {
    seq(|paths|, i requires 0 <= i < |paths| =>
      assert paths[i] in Elements(paths); CanonicalFile(paths[i], files[paths[i]]))
  }

  ghost predicate Encodable(f: Foreign, files: Files) {
    |f.encodeFiles(CanonicalDoc(files))| <= MAX_PACK_BYTES
  }

  ghost function Encoding(f: Foreign, files: Files): Option<string> {
    if FilesValid(f, files) && Encodable(f, files) then Some(f.encodeFiles(CanonicalDoc(files))) else None
  }

  method SortedFiles(files: Files) returns (doc: seq<CanonicalFile>)
    ensures doc == CanonicalDoc(files)
  {
    hide SortedKeys, Increasing, DocOver;
    var paths := SortedPaths(files.Keys);
    doc := [];
    DocPrefix(files, paths);
    for i := 0 to |paths|
      invariant doc == DocOver(files, paths)[..i]
    {
      doc := doc + [CanonicalFile(paths[i], files[paths[i]])];
    }
    assert DocOver(files, paths)[..|paths|] == DocOver(files, paths);
  }

  lemma DocPrefix(files: Files, paths: seq<string>)
    requires Elements(paths) <= files.Keys
    ensures |DocOver(files, paths)| == |paths|
    ensures forall i | 0 <= i < |paths| :: paths[i] in files
              && DocOver(files, paths)[..i + 1]
                  == DocOver(files, paths)[..i] + [CanonicalFile(paths[i], files[paths[i]])]
  {
  }

  method CanonicalFiles(f: Foreign, files: Files) returns (encoded: Option<string>)
    ensures encoded == Encoding(f, files)
    ensures FilesValid(f, files) && |f.encodeFiles(CanonicalDoc(files))| <= 8_388_608
            ==> encoded == Some(f.encodeFiles(CanonicalDoc(files)))
    ensures !FilesValid(f, files) || |f.encodeFiles(CanonicalDoc(files))| > 8_388_608 ==> encoded.None?
  {
    hide FilesValid, CanonicalDoc;
    var ok := ValidateFiles(f, files);
    if !ok { return None; }
    var doc := SortedFiles(files);
    var bytes := f.encodeFiles(doc);
    if |bytes| > MAX_PACK_BYTES { return None; }
    return Some(bytes);
  }

  /** The empty string when the files have no canonical encoding. */
  ghost function FilesDigest(f: Foreign, files: Files): string {
    match Encoding(f, files)
    case Some(bytes) => f.sha(bytes)
    case None => ""
  }

  method DigestFiles(f: Foreign, files: Files) returns (digest: string)
    ensures digest == FilesDigest(f, files)
    ensures FilesValid(f, files) && Encodable(f, files) ==> digest == f.sha(f.encodeFiles(CanonicalDoc(files)))
    ensures !FilesValid(f, files) || !Encodable(f, files) ==> digest == ""
  {
    var encoded := CanonicalFiles(f, files);
    if encoded.None? { return ""; }
    return f.sha(encoded.value);
  }

  /** The map a decoded list stands for, or None when a path repeats. */
  function FilesOf(doc: seq<CanonicalFile>): Option<Files> {
    if doc == [] then Some(map[])
    else
      var last := doc[|doc| - 1];
      match FilesOf(doc[..|doc| - 1])
      case None => None
      case Some(files) => if last.path in files then None else Some(files[last.path := last.content])
  }

  ghost function Decoded(f: Foreign, encoded: string): Result<Files, Error> {
    match f.decodeFiles(encoded)
    case None => Err(Invalid)
    case Some(doc) =>
      match FilesOf(doc)
      case None => Err(Invalid)
      case Some(files) => if FilesValid(f, files) then Ok(files) else Err(Invalid)
  }

  /** A decoded list stands for a map exactly when no path repeats, and then for the map of its
      entries. */
  lemma FilesOfExactly(doc: seq<CanonicalFile>)
    ensures FilesOf(doc).Some? <==> forall i, j | 0 <= i < j < |doc| :: doc[i].path != doc[j].path
    ensures FilesOf(doc).Some? ==>
              && (forall i | 0 <= i < |doc| :: doc[i].path in FilesOf(doc).value
                                               && FilesOf(doc).value[doc[i].path] == doc[i].content)
              && (forall p | p in FilesOf(doc).value :: exists i | 0 <= i < |doc| :: doc[i].path == p)
  {
    hide FilesOf;
    if FilesOf(doc).Some? {
      FilesOfKeys(doc);
      NoRepeat(doc);
    }
    if forall i, j | 0 <= i < j < |doc| :: doc[i].path != doc[j].path { FilesOfDistinct(doc); }
  }

  lemma {:induction false} NoRepeat(doc: seq<CanonicalFile>)
    requires FilesOf(doc).Some?
    ensures forall i, j | 0 <= i < j < |doc| :: doc[i].path != doc[j].path
  {
    if doc != [] {
      NoRepeat(doc[..|doc| - 1]);
      FilesOfKeys(doc[..|doc| - 1]);
    }
  }

  /** The map of the decoded list: refused when it cannot be decoded, a path repeats or the files are
      invalid. */
  method UnmarshalFiles(f: Foreign, encoded: string) returns (r: Result<Files, Error>)
    ensures r == Decoded(f, encoded)
    ensures r.Ok? <==> f.decodeFiles(encoded).Some? && FilesOf(f.decodeFiles(encoded).value).Some?
                       && FilesValid(f, FilesOf(f.decodeFiles(encoded).value).value)
    ensures r.Ok? ==> FilesOf(f.decodeFiles(encoded).value) == Some(r.value)
  {
    hide FilesValid;
    var content := f.decodeFiles(encoded);
    if content.None? { return Err(Invalid); }
    var doc := content.value;
    var files: Files := map[];
    for i := 0 to |doc|
      invariant FilesOf(doc[..i]) == Some(files)
    {
      assert doc[..i + 1][..i] == doc[..i];
      if doc[i].path in files {
        RepeatStays(doc, i + 1);
        return Err(Invalid);
      }
      files := files[doc[i].path := doc[i].content];
    }
    assert doc[..|doc|] == doc;
    var ok := ValidateFiles(f, files);
    return if ok then Ok(files) else Err(Invalid);
  }

  lemma {:induction false} RepeatStays(doc: seq<CanonicalFile>, i: nat)
    requires i <= |doc| && FilesOf(doc[..i]).None?
    ensures FilesOf(doc).None?
    decreases |doc|
  {
    if i == |doc| {
      assert doc[..i] == doc;
    } else {
      assert doc[..|doc| - 1][..i] == doc[..i];
      RepeatStays(doc[..|doc| - 1], i);
    }
  }

  lemma {:induction false} FilesOfKeys(doc: seq<CanonicalFile>)
    requires FilesOf(doc).Some?
    ensures forall p :: p in FilesOf(doc).value <==> exists i | 0 <= i < |doc| :: doc[i].path == p
  {
    if doc != [] {
      FilesOfKeys(doc[..|doc| - 1]);
    }
  }

  lemma {:induction false} FilesOfDistinct(doc: seq<CanonicalFile>)
    requires forall i, j | 0 <= i < j < |doc| :: doc[i].path != doc[j].path
    ensures FilesOf(doc).Some?
    ensures forall i | 0 <= i < |doc| ::
              doc[i].path in FilesOf(doc).value && FilesOf(doc).value[doc[i].path] == doc[i].content
  {
    if doc != [] {
      FilesOfDistinct(doc[..|doc| - 1]);
      FilesOfKeys(doc[..|doc| - 1]);
    }
  }

  lemma DocEntry(files: Files, paths: seq<string>, p: string) returns (i: nat)
    requires Elements(paths) == files.Keys && p in files
    ensures i < |paths| && DocOver(files, paths)[i] == CanonicalFile(p, files[p])
  {
    assert p in Elements(paths);
    i :| i < |paths| && paths[i] == p;
  }

  lemma CanonicalDocIsMap(files: Files)
    ensures FilesOf(CanonicalDoc(files)) == Some(files)
  {
    hide FilesOf;
    var paths := SortedKeys(files.Keys);
    var doc := DocOver(files, paths);
    FilesOfDistinct(doc);
    FilesOfKeys(doc);
    var m := FilesOf(doc).value;
    forall p | p in m ensures p in files {
      var i :| 0 <= i < |doc| && doc[i].path == p;
      assert paths[i] in Elements(paths);
    }
    forall p | p in files ensures p in m && m[p] == files[p] {
      var i := DocEntry(files, paths, p);
    }
    assert m == files;
  }

  /** The canonical list is sorted by path, has each file once and holds nothing else. */
  lemma CanonicalDocExactly(files: Files)
    ensures var doc := CanonicalDoc(files);
            && (forall i, j | 0 <= i < j < |doc| :: StringLe(doc[i].path, doc[j].path) && doc[i].path != doc[j].path)
            && (forall i | 0 <= i < |doc| :: doc[i].path in files && doc[i].content == files[doc[i].path])
            && (forall p | p in files :: CanonicalFile(p, files[p]) in doc)
  {
    var paths := SortedKeys(files.Keys);
    forall i | 0 <= i < |paths| ensures paths[i] in files { assert paths[i] in Elements(paths); }
    forall p | p in files ensures CanonicalFile(p, files[p]) in CanonicalDoc(files) {
      var i := DocEntry(files, paths, p);
    }
  }

  ghost predicate Utf8Paths(f: Foreign, files: Files) {
    forall p | p in files :: f.Utf8(p)
  }

  lemma RepairedIsSame(f: Foreign, files: Files)
    requires FilesValid(f, files) && Utf8Paths(f, files)
    ensures f.Repaired(CanonicalDoc(files)) == CanonicalDoc(files)
  {
    var doc, paths := CanonicalDoc(files), SortedKeys(files.Keys);
    forall i | 0 <= i < |doc| ensures f.Repaired(doc)[i] == doc[i] {
      assert paths[i] in Elements(paths);
      assert ValidFile(f, paths[i], files[paths[i]]);
    }
  }

  /** Marshalling and unmarshalling gives the file set back exactly when every path is UTF-8:
      paths, unlike contents, are never checked to be. */
  lemma RoundTrip(f: Foreign, files: Files)
    requires f.LawfulCodec() && Encoding(f, files).Some?
    ensures Decoded(f, Encoding(f, files).value) == Ok(files) <==> Utf8Paths(f, files)
  {
    hide FilesValid;
    var doc := CanonicalDoc(files);
    CanonicalDocIsMap(files);
    var r := Decoded(f, f.encodeFiles(doc));
    if Utf8Paths(f, files) {
      RepairedIsSame(f, files);
    } else {
      var p :| p in files && !f.Utf8(p);
      if FilesOf(f.Repaired(doc)).Some? {
        FilesOfKeys(f.Repaired(doc));
        forall i | 0 <= i < |doc| ensures f.Repaired(doc)[i].path != p {
          assert f.Utf8(f.repair(doc[i].path));
        }
        assert p !in FilesOf(f.Repaired(doc)).value;
      }
    }
  }

  /** A rule file whose name holds the byte 0xff, which occurs in no UTF-8 text. */
  const BROKEN_PATH := "rules/" + [255 as char] + ".md"

  /** The failing input: an accepted empty file at that path. Its encoding holds the repaired path,
      and reading it back gives another file set or an error. */
  lemma BrokenPathIsNotReadBack(f: Foreign)
    requires f.LawfulCodec() && !f.Utf8(BROKEN_PATH)
    requires ValidFile(f, BROKEN_PATH, "") && Encodable(f, map[BROKEN_PATH := ""])
    ensures Encoding(f, map[BROKEN_PATH := ""]).Some?
    ensures Decoded(f, Encoding(f, map[BROKEN_PATH := ""]).value) != Ok(map[BROKEN_PATH := ""])
  {
    hide ValidFile;
    var files := map[BROKEN_PATH := ""];
    assert files.Keys == {BROKEN_PATH};
    UniformTotal(files, {BROKEN_PATH}, 0);
    assert FilesValid(f, files);
    RoundTrip(f, files);
    assert BROKEN_PATH in files;
  }

  /** Two accepted file sets whose encodings do not collide share a digest exactly when neither has
      an encoding within the limit or they have the same one; sharing one, they have the same
      repaired list. */
  lemma DigestEqualExactly(f: Foreign, a: Files, b: Files)
    requires f.LawfulCodec() && f.LawfulHash() && f.EncodingsApart(a, b)
    requires FilesValid(f, a) && FilesValid(f, b)
    ensures FilesDigest(f, a) == FilesDigest(f, b) <==>
            || (!Encodable(f, a) && !Encodable(f, b))
            || (Encodable(f, a) && Encodable(f, b) && f.encodeFiles(CanonicalDoc(a)) == f.encodeFiles(CanonicalDoc(b)))
    ensures FilesDigest(f, a) == FilesDigest(f, b) && Encodable(f, a)
            ==> f.Repaired(CanonicalDoc(a)) == f.Repaired(CanonicalDoc(b))
  {
    hide FilesValid;
    var x, y := f.encodeFiles(CanonicalDoc(a)), f.encodeFiles(CanonicalDoc(b));
    assert HexDigest(f.sha(x)) && HexDigest(f.sha(y));
    assert f.decodeFiles(x) == Some(f.Repaired(CanonicalDoc(a)));
    assert f.decodeFiles(y) == Some(f.Repaired(CanonicalDoc(b)));
  }

  /** The digest of an encodable file set with UTF-8 paths identifies it among all accepted file
      sets with UTF-8 paths: equal maps give equal bytes and different maps different ones. */
  lemma DigestIdentifies(f: Foreign, a: Files, b: Files)
    requires f.LawfulCodec() && f.LawfulHash() && f.EncodingsApart(a, b)
    requires FilesValid(f, a) && FilesValid(f, b) && Utf8Paths(f, a) && Utf8Paths(f, b) && Encodable(f, a)
    ensures FilesDigest(f, a) == FilesDigest(f, b) <==> a == b
  {
    DigestEqualExactly(f, a, b);
    RepairedIsSame(f, a);
    RepairedIsSame(f, b);
    CanonicalDocIsMap(a);
    CanonicalDocIsMap(b);
  }

  // ---- The digest that says nothing -----------------------------------------------------------

  const LARGE_PATHS := {
    "rules/1.md", "rules/2.md", "rules/3.md", "rules/4.md",
    "rules/5.md", "rules/6.md", "rules/7.md", "rules/8.md"
  }

  /** Eight files of the largest accepted size, all of one character. */
  ghost function Large(c: char): Files {
    map p | p in LARGE_PATHS :: seq(MAX_FILE_BYTES, _ => c)
  }

  lemma {:induction false} UniformTotal(files: Files, keys: set<string>, n: nat)
    requires keys <= files.Keys && forall p | p in keys :: |files[p]| == n
    ensures Total(files, keys) == |keys| * n
    decreases keys
  {
    if keys != {} {
      var p :| p in keys;
      TotalRemove(files, keys, p);
      UniformTotal(files, keys - {p}, n);
      assert |keys| == |keys - {p}| + 1;
      assert |keys| * n == |keys - {p}| * n + n;
    }
  }

  lemma {:induction false} ContentBytesOfDoc(files: Files, paths: seq<string>)
    requires Elements(paths) <= files.Keys && forall i, j | 0 <= i < j < |paths| :: paths[i] != paths[j]
    ensures ContentBytes(DocOver(files, paths)) == Total(files, Elements(paths))
  {
    if paths != [] {
      var init, last := paths[..|paths| - 1], paths[|paths| - 1];
      assert Elements(paths) == Elements(init) + {last} && last !in Elements(init);
      assert DocOver(files, paths)[..|paths| - 1] == DocOver(files, init);
      ContentBytesOfDoc(files, init);
      TotalRemove(files, Elements(paths), last);
      assert Elements(paths) - {last} == Elements(init);
    }
  }

  /** A file set whose contents alone fill the pack limit is accepted by validation but has no
      encoding within it, so its digest is empty. */
  lemma FullPackHasNoDigest(f: Foreign, files: Files)
    requires f.LawfulCodec() && Total(files, files.Keys) >= MAX_PACK_BYTES
    ensures FilesDigest(f, files) == ""
  {
    ContentBytesOfDoc(files, SortedKeys(files.Keys));
    assert |f.encodeFiles(CanonicalDoc(files))| > ContentBytes(CanonicalDoc(files));
  }

  lemma LargeIsAccepted(f: Foreign, c: char)
    requires f.LawfulCodec() && FoldDistinct(f, LARGE_PATHS)
    requires forall p | p in LARGE_PATHS :: ValidFile(f, p, Large(c)[p])
    ensures FilesValid(f, Large(c)) && FilesDigest(f, Large(c)) == ""
  {
    hide ValidFile, FoldDistinct;
    assert |LARGE_PATHS| == 8;
    assert Large(c).Keys == LARGE_PATHS;
    UniformTotal(Large(c), LARGE_PATHS, MAX_FILE_BYTES);
    FullPackHasNoDigest(f, Large(c));
  }

  /** Two different accepted file sets, both with the empty digest. */
  lemma LargePacksShareDigest(f: Foreign)
    requires f.LawfulCodec() && FoldDistinct(f, LARGE_PATHS)
    requires forall p | p in LARGE_PATHS :: ValidFile(f, p, Large('a')[p]) && ValidFile(f, p, Large('b')[p])
    ensures FilesValid(f, Large('a')) && FilesValid(f, Large('b')) && Large('a') != Large('b')
    ensures FilesDigest(f, Large('a')) == FilesDigest(f, Large('b')) == ""
  {
    hide ValidFile, FoldDistinct, FilesValid, FilesDigest;
    LargeIsAccepted(f, 'a');
    LargeIsAccepted(f, 'b');
    var p := "rules/1.md";
    assert p in LARGE_PATHS && Large('a')[p][0] == 'a' && Large('b')[p][0] == 'b';
  }

  // ---- Packs and merging ----------------------------------------------------------------------

  predicate ValidIdentifier(value: string, max: nat) {
    && value != ""
    && |value| <= max
    && forall i | 0 <= i < |value| ::
         || 'a' <= value[i] <= 'z' || 'A' <= value[i] <= 'Z' || '0' <= value[i] <= '9'
         || (i > 0 && value[i] in {'-', '_', '.'})
  }

  /** At most 64 characters: a letter or digit, then letters, digits and the three marks. */
  lemma IdentifierExactly(value: string)
    ensures ValidIdentifier(value, MAX_IDENTIFIER) <==>
              1 <= |value| <= 64 && AlphaNumeric(value[0])
              && forall i | 1 <= i < |value| ::
                   AlphaNumeric(value[i]) || value[i] == '-' || value[i] == '_' || value[i] == '.'
  {
  }

  ghost predicate AlphaNumeric(c: char) {
    'a' <= c <= 'z' || 'A' <= c <= 'Z' || '0' <= c <= '9'
  }

  /** The persisted form of a pack, digest included. */
  ghost predicate PackValid(f: Foreign, pack: Pack) {
    && ValidIdentifier(pack.id, MAX_IDENTIFIER)
    && ValidIdentifier(pack.version, MAX_IDENTIFIER)
    && FilesValid(f, pack.files)
    && pack.digest == FilesDigest(f, pack.files)
  }

  method ValidatePack(f: Foreign, pack: Pack) returns (ok: bool)
    ensures ok <==> PackValid(f, pack)
    ensures ok <==> ValidIdentifier(pack.id, 64) && ValidIdentifier(pack.version, 64)
                    && FilesValid(f, pack.files) && pack.digest == FilesDigest(f, pack.files)
  {
    hide FilesValid, ValidIdentifier;
    if !ValidIdentifier(pack.id, MAX_IDENTIFIER) || !ValidIdentifier(pack.version, MAX_IDENTIFIER) { return false; }
    ok := ValidateFiles(f, pack.files);
    if !ok { return; }
    var digest := DigestFiles(f, pack.files);
    ok := pack.digest == digest;
  }

  ghost function Merged(f: Foreign, pack: Pack, overrides: Files): Result<Files, Error> {
    if PackValid(f, pack) && (|overrides| > 0 ==> FilesValid(f, overrides)) && FilesValid(f, pack.files + overrides)
    then Ok(pack.files + overrides) else Err(Invalid)
  }

  method Overlay(base: Files, overrides: Files) returns (merged: Files)
    ensures merged == base + overrides
  {
    merged := base;
    var remaining := overrides.Keys;
    while remaining != {}
      invariant remaining <= overrides.Keys
      invariant merged.Keys == base.Keys + (overrides.Keys - remaining)
      invariant forall p | p in merged ::
                  merged[p] == if p in overrides && p !in remaining then overrides[p] else base[p]
      decreases remaining
    {
      var path :| path in remaining;
      merged := merged[path := overrides[path]];
      remaining := remaining - {path};
    }
  }

  /** The paths of both; the override's content where there is one and the base's elsewhere. */
  ghost predicate Overlaid(base: Files, overrides: Files, merged: Files) {
    && (forall p :: p in merged <==> p in base || p in overrides)
    && (forall p | p in overrides :: merged[p] == overrides[p])
    && (forall p | p in base && p !in overrides :: merged[p] == base[p])
  }

  lemma MergedIsOverlaid(f: Foreign, pack: Pack, overrides: Files)
    ensures Merged(f, pack, overrides).Ok? ==>
              && PackValid(f, pack) && (|overrides| > 0 ==> FilesValid(f, overrides))
              && Overlaid(pack.files, overrides, Merged(f, pack, overrides).value)
              && FilesValid(f, Merged(f, pack, overrides).value)
    ensures PackValid(f, pack) && |overrides| == 0 ==> Merged(f, pack, overrides) == Ok(pack.files)
  {
    hide FilesValid, PackValid, Overlaid;
    PlusIsOverlaid(pack.files, overrides);
    ValidPackFiles(f, pack);
  }

  lemma PlusIsOverlaid(base: Files, overrides: Files)
    ensures Overlaid(base, overrides, base + overrides)
    ensures |overrides| == 0 ==> base + overrides == base
  {
  }

  lemma ValidPackFiles(f: Foreign, pack: Pack)
    ensures PackValid(f, pack) ==> FilesValid(f, pack.files) && pack.digest == FilesDigest(f, pack.files)
  {
  }

  method MergeFiles(f: Foreign, pack: Pack, overrides: Files) returns (r: Result<Files, Error>)
    ensures r == Merged(f, pack, overrides)
    ensures r.Ok? ==> Overlaid(pack.files, overrides, r.value) && FilesValid(f, r.value)
    ensures r.Ok? ==> PackValid(f, pack) && (|overrides| > 0 ==> FilesValid(f, overrides))
    ensures PackValid(f, pack) && |overrides| == 0 ==> r == Ok(pack.files)
  {
    hide FilesValid, PackValid, Overlaid;
    MergedIsOverlaid(f, pack, overrides);
    var ok := ValidatePack(f, pack);
    if !ok { return Err(Invalid); }
    if |overrides| > 0 {
      ok := ValidateFiles(f, overrides);
      if !ok { return Err(Invalid); }
    }
    var merged := Overlay(pack.files, overrides);
    ok := ValidateFiles(f, merged);
    return if ok then Ok(merged) else Err(Invalid);
  }

  lemma OverlayUpdate(base: Files, overrides: Files, path: string, content: string)
    ensures var next := overrides[path := content];
            && base + next == (base + overrides)[path := content]
            && path in next
            && next.Keys <= (base + overrides)[path := content].Keys
            && forall p | p in next :: next[p] == (base + overrides)[path := content][p]
  {
  }

  /** An override accepted on top of a merge can be merged again, and gives that merge updated. */
  lemma OverrideStaysMergeable(f: Foreign, pack: Pack, overrides: Files, path: string, content: string)
    requires Merged(f, pack, overrides).Ok?
    requires FilesValid(f, Merged(f, pack, overrides).value[path := content])
    ensures Merged(f, pack, overrides[path := content]) == Ok(Merged(f, pack, overrides).value[path := content])
  {
    hide FilesValid, PackValid;
    OverlayUpdate(pack.files, overrides, path, content);
    SubmapValid(f, overrides[path := content], (pack.files + overrides)[path := content]);
  }

  // ---- Change lists ---------------------------------------------------------------------------

  /** What happened to one path. */
  function KindOf(before: Files, after: Files, p: string): Option<ChangeKind> {
    if p !in before && p in after then Some(Added)
    else if p in before && p !in after then Some(Removed)
    else if p in before && before[p] != after[p] then Some(Modified)
    else None
  }

  function PathsOf(changes: seq<Change>): (r: seq<string>)
    ensures |r| == |changes| && forall i | 0 <= i < |r| :: r[i] == changes[i].path
  {
    seq(|changes|, i requires 0 <= i < |changes| => changes[i].path)
  }

  /** Sorted by path, one entry a path, and exactly the entries that are true. */
  ghost predicate ExactChanges(before: Files, after: Files, changes: seq<Change>) {
    && Increasing(PathsOf(changes))
    && (forall p, k :: Change(p, k) in changes <==> KindOf(before, after, p) == Some(k))
  }

  /** Which paths are listed as what. */
  ghost predicate Listed(before: Files, after: Files, changes: seq<Change>) {
    && (forall p :: Change(p, Added) in changes <==> p !in before && p in after)
    && (forall p :: Change(p, Removed) in changes <==> p in before && p !in after)
    && (forall p :: Change(p, Modified) in changes <==> p in before && p in after && before[p] != after[p])
  }

  lemma ExactIsListed(before: Files, after: Files, changes: seq<Change>)
    requires ExactChanges(before, after, changes)
    ensures Listed(before, after, changes)
  {
    hide Increasing;
  }

  /** The entries for the first i paths of an ordered list. */
  ghost predicate ListedUpTo(before: Files, after: Files, ordered: seq<string>, i: nat, changes: seq<Change>)
    requires i <= |ordered|
  {
    && Increasing(PathsOf(changes))
    && (forall p, k :: Change(p, k) in changes <==> p in ordered[..i] && KindOf(before, after, p) == Some(k))
  }

  lemma ListNext(before: Files, after: Files, ordered: seq<string>, i: nat, changes: seq<Change>)
    requires Increasing(ordered) && i < |ordered| && ListedUpTo(before, after, ordered, i, changes)
    ensures var kind := KindOf(before, after, ordered[i]);
            ListedUpTo(before, after, ordered, i + 1,
                       if kind.Some? then changes + [Change(ordered[i], kind.value)] else changes)
  {
    hide Ordered, KindOf, Increasing;
    var kind := KindOf(before, after, ordered[i]);
    assert ordered[..i + 1] == ordered[..i] + [ordered[i]];
    if kind.Some? {
      ListedPaths(before, after, ordered, i, changes);
      ExtendIncreasing(PathsOf(changes), ordered, i);
      var next := changes + [Change(ordered[i], kind.value)];
      assert PathsOf(next) == PathsOf(changes) + [ordered[i]];
      forall p, k ensures Change(p, k) in next <==> p in ordered[..i + 1] && KindOf(before, after, p) == Some(k) {
        assert Change(p, k) in next <==> Change(p, k) in changes || Change(p, k) == Change(ordered[i], kind.value);
        OrderedOnce(ordered, i);
      }
    } else {
      forall p, k ensures Change(p, k) in changes <==> p in ordered[..i + 1] && KindOf(before, after, p) == Some(k) {
      }
    }
  }

  lemma OrderedOnce(ordered: seq<string>, i: nat)
    requires Increasing(ordered) && i < |ordered|
    ensures ordered[i] !in ordered[..i]
  {
  }

  lemma ListedPaths(before: Files, after: Files, ordered: seq<string>, i: nat, changes: seq<Change>)
    requires i <= |ordered| && ListedUpTo(before, after, ordered, i, changes)
    ensures forall p | p in PathsOf(changes) :: p in ordered[..i]
  {
  }

  method Changes(before: Files, after: Files) returns (result: seq<Change>)
    ensures ExactChanges(before, after, result) && Listed(before, after, result)
  {
    var ordered := SortedPaths(before.Keys + after.Keys);
    result := [];
    for i := 0 to |ordered|
      invariant ListedUpTo(before, after, ordered, i, result)
    {
      ListNext(before, after, ordered, i, result);
      var kind := KindOf(before, after, ordered[i]);
      if kind.Some? {
        result := result + [Change(ordered[i], kind.value)];
      }
    }
    assert ordered[..|ordered|] == ordered;
    forall p, k ensures Change(p, k) in result <==> KindOf(before, after, p) == Some(k) {
      assert p in ordered <==> p in Elements(ordered);
    }
    ExactIsListed(before, after, result);
  }

  lemma ExtendIncreasing(paths: seq<string>, ordered: seq<string>, i: nat)
    requires Increasing(paths) && Increasing(ordered) && i < |ordered|
    requires forall p | p in paths :: p in ordered[..i]
    ensures Increasing(paths + [ordered[i]])
  {
    forall j | 0 <= j < |paths| ensures StringLe(paths[j], ordered[i]) && paths[j] != ordered[i] {
      assert paths[j] in ordered[..i];
      var k :| 0 <= k < i && ordered[k] == paths[j];
    }
  }

  /** Exact change lists are determined by the two maps. */
  lemma ExactChangesUnique(before: Files, after: Files, a: seq<Change>, b: seq<Change>)
    requires ExactChanges(before, after, a) && ExactChanges(before, after, b)
    ensures a == b
  {
    SamePaths(before, after, a, b);
    SamePaths(before, after, b, a);
    IncreasingUnique(PathsOf(a), PathsOf(b));
    forall i | 0 <= i < |a| ensures a[i] == b[i] {
      assert PathsOf(a)[i] == PathsOf(b)[i];
      assert Change(a[i].path, a[i].kind) in a && Change(b[i].path, b[i].kind) in b;
    }
  }

  lemma SamePaths(before: Files, after: Files, a: seq<Change>, b: seq<Change>)
    requires ExactChanges(before, after, a) && ExactChanges(before, after, b)
    ensures Elements(PathsOf(a)) <= Elements(PathsOf(b))
  {
  }

  /** The list is empty exactly when nothing changed. */
  lemma NoChangesExactly(before: Files, after: Files, changes: seq<Change>)
    requires ExactChanges(before, after, changes)
    ensures changes == [] <==> before == after
  {
    if changes == [] {
      forall p ensures KindOf(before, after, p) == None {
        assert forall k :: Change(p, k) !in changes;
      }
      forall p ensures (p in before <==> p in after) && (p in before ==> before[p] == after[p]) {
        assert KindOf(before, after, p) == None;
      }
    } else {
      var c := changes[0];
      assert Change(c.path, c.kind) in changes;
      assert KindOf(before, after, c.path) == Some(c.kind);
    }
  }

  /** Applies the listed changes, taking contents from `source`. */
  ghost function Replay(before: Files, changes: seq<Change>, source: Files): Files {
    if changes == [] then before
    else
      var c := changes[|changes| - 1];
      var m := Replay(before, changes[..|changes| - 1], source);
      if c.kind.Removed? || c.path !in source then m - {c.path} else m[c.path := source[c.path]]
  }

  lemma {:induction false} ReplayAt(before: Files, changes: seq<Change>, source: Files, p: string)
    requires forall i, j | 0 <= i < j < |changes| :: changes[i].path != changes[j].path
    requires forall c | c in changes :: c.kind.Removed? <==> c.path !in source
    ensures var m := Replay(before, changes, source);
            if exists c | c in changes :: c.path == p
            then (p in m <==> p in source) && (p in m ==> m[p] == source[p])
            else (p in m <==> p in before) && (p in m ==> m[p] == before[p])
  {
    if changes != [] {
      var init, c := changes[..|changes| - 1], changes[|changes| - 1];
      ReplayAt(before, init, source, p);
      assert changes == init + [c];
      if c.path == p { assert c in changes; }
    }
  }

  /** Replaying an exact change list gives the map it leads to. */
  lemma ReplayGivesAfter(before: Files, after: Files, changes: seq<Change>)
    requires ExactChanges(before, after, changes)
    ensures Replay(before, changes, after) == after
  {
    var m := Replay(before, changes, after);
    forall c | c in changes ensures c.kind.Removed? <==> c.path !in after {
      assert Change(c.path, c.kind) in changes;
    }
    assert forall i, j | 0 <= i < j < |changes| :: changes[i].path != changes[j].path by {
      assert forall i | 0 <= i < |changes| :: changes[i].path == PathsOf(changes)[i];
    }
    forall p ensures (p in m <==> p in after) && (p in m ==> m[p] == after[p]) {
      ReplayAt(before, changes, after, p);
      var kind := KindOf(before, after, p);
      if kind.Some? { assert Change(p, kind.value) in changes; }
    }
  }

  /** A promotion only adds and modifies: merging never removes a file of the pack. */
  lemma PromotionNeverRemoves(f: Foreign, pack: Pack, overrides: Files, changes: seq<Change>)
    requires Merged(f, pack, overrides).Ok?
    requires ExactChanges(pack.files, Merged(f, pack, overrides).value, changes)
    ensures forall c | c in changes :: !c.kind.Removed?
  {
    hide FilesValid, PackValid, Increasing;
    forall c | c in changes ensures !c.kind.Removed? {
      assert Change(c.path, c.kind) in changes;
    }
  }
}
