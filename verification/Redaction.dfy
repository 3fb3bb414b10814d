/** Text redaction: the home directory and caller-chosen redactions are replaced one after
    another, each pass over text that already holds the markers of earlier passes. */
module Redaction {

  const HOME_MARKER := "[HOME]"
  const REDACTED_VALUE := "[REDACTED]"

  predicate OccursAt(s: string, t: string, i: int) {
    0 <= i && i + |t| <= |s| && forall j | 0 <= j < |t| :: s[i + j] == t[j]
  }

  predicate Contains(s: string, t: string) {
    exists i | 0 <= i <= |s| :: OccursAt(s, t, i)
  }

  lemma SliceOccurs(s: string, lo: nat, hi: nat, t: string, i: nat)
    requires lo <= hi <= |s| && i + |t| <= hi - lo
    ensures OccursAt(s[lo..hi], t, i) <==> OccursAt(s, t, lo + i)
  {
  }

  /** First index of t in s, or -1 (strings.Index). */
  function IndexOf(s: string, t: string): (r: int)
    ensures r == -1 <==> !Contains(s, t)
    ensures r != -1 ==> 0 <= r && r + |t| <= |s| && OccursAt(s, t, r) && forall j | 0 <= j < r :: !OccursAt(s, t, j)
  {
    if OccursAt(s, t, 0) then 0
    else if s == "" then -1
    else
      var rest := IndexOf(s[1..], t);
      assert forall j | 0 <= j <= |s| - 1 :: OccursAt(s[1..], t, j) == OccursAt(s, t, j + 1) by {
        forall j | 0 <= j <= |s| - 1 ensures OccursAt(s[1..], t, j) == OccursAt(s, t, j + 1) {
          if j + |t| <= |s| - 1 { SliceOccurs(s, 1, |s|, t, j); }
        }
      }
      assert forall j | 1 <= j <= |s| :: OccursAt(s, t, j) == OccursAt(s[1..], t, j - 1) by {
        forall j | 1 <= j <= |s| ensures OccursAt(s, t, j) == OccursAt(s[1..], t, j - 1) {
          assert OccursAt(s[1..], t, j - 1) == OccursAt(s, t, j - 1 + 1);
        }
      }
      if rest == -1 then -1 else rest + 1
  }

  /** A marker after every character; with one more in front this is what replacing the
      empty string does. */
  function Spread(s: string, marker: string): string {
    if s == "" then "" else s[..1] + marker + Spread(s[1..], marker)
  }

  /** strings.ReplaceAll: leftmost, non-overlapping. */
  function ReplaceAll(s: string, old_: string, new_: string): string
    decreases |s|
  {
    if old_ == "" then new_ + Spread(s, new_)
    else
      var i := IndexOf(s, old_);
      if i == -1 then s
      else s[..i] + new_ + ReplaceAll(s[i + |old_|..], old_, new_)
  }

  predicate IsWindowsPath(path: string) {
    || (|path| >= 3 && path[1] == ':' && (path[2] == '\\' || path[2] == '/'))
    || "\\\\" <= path
    || "//" <= path
  }

  /** The three spellings of the home path that are looked for. */
  function Candidates(home: string): seq<string> {
    [home, ReplaceAll(home, "\\", "/"), ReplaceAll(home, "/", "\\")]
  }

  /** Case-insensitive replacement of a Windows home path, left uninterpreted. */
  type FoldReplace = (string, string) -> string

  function HideHome(value: string, home: string, fold: FoldReplace, candidates: seq<string>): string
    decreases |candidates|
  {
    if candidates == [] then value
    else
      var next := if IsWindowsPath(home) then fold(value, candidates[0])
                  else ReplaceAll(value, candidates[0], HOME_MARKER);
      HideHome(next, home, fold, candidates[1..])
  }

  function RedactAll(value: string, redactions: seq<string>): string
    decreases |redactions|
  {
    if redactions == [] then value
    else RedactAll(ReplaceAll(value, redactions[0], REDACTED_VALUE), redactions[1..])
  }

  /** What the two loops of SanitizeText compute. */
  function Sanitized(value: string, home: string, redactions: seq<string>, fold: FoldReplace): string {
    RedactAll(if home == "" then value else HideHome(value, home, fold, Candidates(home)), redactions)
  }

  method SanitizeText(value: string, home: string, redactions: seq<string>, fold: FoldReplace)
    returns (text: string)
    ensures text == Sanitized(value, home, redactions, fold)
    ensures CaseSensitive(home) ==> ReplacedInTurn(value, Steps(home, redactions), text)
    ensures !CaseSensitive(home) ==> ReplacedInTurn(
              fold(fold(fold(value, home), Respelled(home, '\\', '/')), Respelled(home, '/', '\\')),
              Steps("", redactions), text)
    ensures CaseSensitive(home) && (forall s | s in Steps(home, redactions) :: s.0 != "" && !Contains(value, s.0))
            ==> text == value
    ensures forall r | r in redactions && Resists(r, REDACTED_VALUE) :: !Contains(text, r)
  {
    text := value;
    if home != "" {
      var candidates := Candidates(home);
      for i := 0 to |candidates|
        invariant HideHome(text, home, fold, candidates[i..]) == HideHome(value, home, fold, candidates)
      {
        if IsWindowsPath(home) {
          text := fold(text, candidates[i]);
        } else {
          text := ReplaceAll(text, candidates[i], HOME_MARKER);
        }
        assert candidates[i..][1..] == candidates[i + 1..];
      }
    }
    ghost var hidden := text;
    for i := 0 to |redactions|
      invariant RedactAll(text, redactions[i..]) == RedactAll(hidden, redactions)
    {
      text := ReplaceAll(text, redactions[i], REDACTED_VALUE);
      assert redactions[i..][1..] == redactions[i + 1..];
    }
    forall r | r in redactions && Resists(r, REDACTED_VALUE) ensures !Contains(text, r) {
      RedactionComplete(value, home, redactions, fold, r);
    }
    if CaseSensitive(home) {
      SanitizedInTurn(value, home, redactions, fold);
      if forall s | s in Steps(home, redactions) :: s.0 != "" && !Contains(value, s.0) {
        NothingToReplace(value, Steps(home, redactions), text);
      }
    } else {
      SanitizedOnWindows(value, home, redactions, fold);
    }
  }

  // ---- What a replacement keeps -------------------------------------------------------------

  /** The pieces one after another with `between` in between. */
  function Join(pieces: seq<string>, between: string): string {
    if pieces == [] then ""
    else if |pieces| == 1 then pieces[0]
    else pieces[0] + between + Join(pieces[1..], between)
  }

  /** s is the pieces with x in between, found from the left: no x begins in a piece, and the last
      piece is free of it. The empty x is found before, between and after all characters. */
  ghost predicate SplitBy(s: string, x: string, pieces: seq<string>) {
    && s == Join(pieces, x)
    && if x == "" then
         && |pieces| == |s| + 2 && pieces[0] == "" && pieces[|s| + 1] == ""
         && forall i | 0 <= i < |s| :: pieces[i + 1] == [s[i]]
       else
         && pieces != [] && !Contains(pieces[|pieces| - 1], x)
         && forall i, j | 0 <= i < |pieces| - 1 && 0 <= j < |pieces[i]| :: !OccursAt(pieces[i] + x, x, j)
  }

  /** r is s with every x replaced by the marker and everything else kept. */
  ghost predicate Replaced(s: string, x: string, marker: string, r: string) {
    exists pieces :: SplitBy(s, x, pieces) && r == Join(pieces, marker)
  }

  lemma {:induction false} JoinSpread(s: string, marker: string) returns (pieces: seq<string>)
    ensures |pieces| == |s| + 1 && pieces[|s|] == "" && forall i | 0 <= i < |s| :: pieces[i] == [s[i]]
    ensures Join(pieces, "") == s && Join(pieces, marker) == Spread(s, marker)
  {
    if s == "" {
      pieces := [""];
    } else {
      var rest := JoinSpread(s[1..], marker);
      pieces := [s[..1]] + rest;
      assert pieces[1..] == rest;
      assert s[..1] + "" + s[1..] == s;
    }
  }

  lemma {:induction false} SplitNonEmpty(s: string, x: string, marker: string) returns (pieces: seq<string>)
    requires x != ""
    ensures SplitBy(s, x, pieces) && ReplaceAll(s, x, marker) == Join(pieces, marker)
    decreases |s|
  {
    hide Contains, IndexOf, OccursAt;
    var i := IndexOf(s, x);
    if i == -1 {
      pieces := [s];
    } else {
      var rest := SplitNonEmpty(s[i + |x|..], x, marker);
      pieces := [s[..i]] + rest;
      SplitFromFirst(s, x, i, rest);
      JoinCons(s[..i], rest, marker);
    }
  }

  lemma JoinCons(first: string, rest: seq<string>, between: string)
    requires rest != []
    ensures Join([first] + rest, between) == first + between + Join(rest, between)
  {
    assert ([first] + rest)[1..] == rest;
  }

  /** What precedes the first x is the first piece. */
  lemma SplitFromFirst(s: string, x: string, i: nat, rest: seq<string>)
    requires x != "" && OccursAt(s, x, i) && forall j | 0 <= j < i :: !OccursAt(s, x, j)
    requires SplitBy(s[i + |x|..], x, rest)
    ensures SplitBy(s, x, [s[..i]] + rest) && rest != []
  {
    hide Contains, Join;
    var pieces := [s[..i]] + rest;
    JoinCons(s[..i], rest, x);
    SameAt(s, x, i);
    forall k, j | 0 <= k < |pieces| - 1 && 0 <= j < |pieces[k]| ensures !OccursAt(pieces[k] + x, x, j) {
      if k == 0 {
        assert s[..i] + x == s[0..i + |x|];
        SliceOccurs(s, 0, i + |x|, x, j);
      } else {
        assert pieces[k] == rest[k - 1];
      }
    }
  }

  lemma SameAt(s: string, x: string, i: nat)
    requires OccursAt(s, x, i)
    ensures s[i..i + |x|] == x && s == s[..i] + x + s[i + |x|..]
  {
    assert s[i..i + |x|] == x;
  }

  /** What a replacement does, whatever is replaced: exactly the occurrences go, found from the
      left, and exactly the rest stays. */
  lemma ReplaceIsReplaced(s: string, x: string, marker: string)
    ensures Replaced(s, x, marker, ReplaceAll(s, x, marker))
  {
    if x == "" {
      var rest := JoinSpread(s, marker);
      var pieces := [""] + rest;
      assert pieces[1..] == rest;
      assert SplitBy(s, x, pieces) && ReplaceAll(s, x, marker) == Join(pieces, marker);
    } else {
      var pieces := SplitNonEmpty(s, x, marker);
    }
  }

  /** The first of several pieces ends where x first occurs, and the others split the rest. */
  lemma PeelPiece(s: string, x: string, pieces: seq<string>)
    requires x != "" && SplitBy(s, x, pieces) && |pieces| > 1
    ensures IndexOf(s, x) == |pieces[0]| && pieces[0] == s[..|pieces[0]|]
    ensures SplitBy(s[|pieces[0]| + |x|..], x, pieces[1..])
  {
    hide IndexOf, Contains;
    var n, rest := |pieces[0]|, pieces[1..];
    assert s[..n + |x|] == pieces[0] + x && s[n + |x|..] == Join(rest, x);
    assert OccursAt(s, x, n);
    forall j | 0 <= j < n ensures !OccursAt(s, x, j) {
      assert !OccursAt(pieces[0] + x, x, j);
      SliceOccurs(s, 0, n + |x|, x, j);
    }
    IndexIs(s, x, n);
    forall i, j | 0 <= i < |rest| - 1 && 0 <= j < |rest[i]| ensures !OccursAt(rest[i] + x, x, j) {
      assert rest[i] == pieces[i + 1];
    }
  }

  lemma OnePiece(s: string, x: string, pieces: seq<string>)
    requires x != "" && SplitBy(s, x, pieces) && |pieces| == 1
    ensures IndexOf(s, x) == -1 && pieces == [s]
  {
    hide IndexOf;
  }

  /** The pieces are determined, so the result is. */
  lemma {:induction false} SplitUnique(s: string, x: string, a: seq<string>, b: seq<string>)
    requires x != "" && SplitBy(s, x, a) && SplitBy(s, x, b) && a != [] && b != []
    ensures a == b
    decreases |a|
  {
    hide SplitBy, IndexOf;
    if |a| == 1 { OnePiece(s, x, a); } else { PeelPiece(s, x, a); }
    if |b| == 1 { OnePiece(s, x, b); } else { PeelPiece(s, x, b); }
    if |a| > 1 {
      SplitUnique(s[|a[0]| + |x|..], x, a[1..], b[1..]);
      assert a == [a[0]] + a[1..] && b == [b[0]] + b[1..];
    }
  }

  lemma SplitEmpty(s: string, a: seq<string>, b: seq<string>)
    requires SplitBy(s, "", a) && SplitBy(s, "", b)
    ensures a == b
  {
    forall i | 0 < i < |s| + 1 ensures a[i] == b[i] {
      var k := i - 1;
      assert a[k + 1] == [s[k]] == b[k + 1];
    }
  }

  lemma ReplacedExactly(s: string, x: string, marker: string, r: string)
    ensures Replaced(s, x, marker, r) <==> r == ReplaceAll(s, x, marker)
  {
    ReplaceIsReplaced(s, x, marker);
    if Replaced(s, x, marker, r) {
      var a :| SplitBy(s, x, a) && r == Join(a, marker);
      var b :| SplitBy(s, x, b) && ReplaceAll(s, x, marker) == Join(b, marker);
      if x == "" { SplitEmpty(s, a, b); } else { SplitUnique(s, x, a, b); }
    }
  }

  /** Home paths that are looked for as they are spelled: no drive letter and no share. */
  predicate CaseSensitive(home: string) {
    && !(|home| >= 3 && home[1] == ':' && home[2] in {'\\', '/'})
    && (|home| >= 2 ==> home[..2] != "\\\\" && home[..2] != "//")
  }

  /** A spelling of a path with one separator turned into the other. */
  function Respelled(path: string, from: char, to: char): (r: string)
    ensures |r| == |path|
  {
    seq(|path|, i requires 0 <= i < |path| => if path[i] == from then to else path[i])
  }

  /** The replacements in order: the home in its three spellings, then each redaction. */
  function Steps(home: string, redactions: seq<string>): seq<(string, string)> {
    (if home == "" then []
     else [(home, "[HOME]"), (Respelled(home, '\\', '/'), "[HOME]"), (Respelled(home, '/', '\\'), "[HOME]")])
    + seq(|redactions|, i requires 0 <= i < |redactions| => (redactions[i], "[REDACTED]"))
  }

  /** r is s after the replacements, one after another. */
  ghost predicate ReplacedInTurn(s: string, steps: seq<(string, string)>, r: string)
    decreases |steps|
  {
    if steps == [] then r == s
    else exists next :: Replaced(s, steps[0].0, steps[0].1, next) && ReplacedInTurn(next, steps[1..], r)
  }

  lemma {:induction false} RespelledIsReplaced(path: string, from: char, to: char)
    ensures ReplaceAll(path, [from], [to]) == Respelled(path, from, to)
    decreases |path|
  {
    hide OccursAt, Contains;
    var i := IndexOf(path, [from]);
    FirstChar(path, from);
    if i == -1 {
      assert Respelled(path, from, to) == path;
    } else {
      RespelledIsReplaced(path[i + 1..], from, to);
      RespelledAt(path, from, to, i);
    }
  }

  lemma RespelledAt(path: string, from: char, to: char, i: nat)
    requires i < |path| && path[i] == from && from !in path[..i]
    ensures Respelled(path, from, to) == path[..i] + [to] + Respelled(path[i + 1..], from, to)
  {
    forall j | 0 <= j < i ensures path[j] != from { assert path[j] in path[..i]; }
  }

  lemma FirstChar(s: string, c: char)
    ensures var i := IndexOf(s, [c]);
            if i == -1 then c !in s else i < |s| && s[i] == c && c !in s[..i]
  {
    hide IndexOf;
    var i := IndexOf(s, [c]);
    forall j | 0 <= j < |s| ensures s[j] == c ==> i != -1 && i <= j {
      CharOccurs(s, c, j);
    }
    if i != -1 {
      CharOccurs(s, c, i);
      assert forall j | 0 <= j < i :: s[..i][j] == s[j];
    }
  }

  lemma CharOccurs(s: string, c: char, j: nat)
    requires j < |s|
    ensures OccursAt(s, [c], j) <==> s[j] == c
  {
    assert [c][0] == c && (OccursAt(s, [c], j) <==> s[j + 0] == [c][0]);
  }

  lemma CandidatesAreSpellings(home: string)
    ensures Candidates(home) == [home, Respelled(home, '\\', '/'), Respelled(home, '/', '\\')]
  {
    RespelledIsReplaced(home, '\\', '/');
    RespelledIsReplaced(home, '/', '\\');
  }

  lemma {:induction false} RedactInTurn(value: string, redactions: seq<string>)
    ensures ReplacedInTurn(value, Steps("", redactions), RedactAll(value, redactions))
    decreases |redactions|
  {
    hide Replaced;
    if redactions != [] {
      var next := ReplaceAll(value, redactions[0], REDACTED_VALUE);
      ReplaceIsReplaced(value, redactions[0], REDACTED_VALUE);
      RedactInTurn(next, redactions[1..]);
      assert Steps("", redactions)[1..] == Steps("", redactions[1..]);
    }
  }

  lemma PrependStep(s: string, x: string, marker: string, steps: seq<(string, string)>, r: string)
    requires ReplacedInTurn(ReplaceAll(s, x, marker), steps, r)
    ensures ReplacedInTurn(s, [(x, marker)] + steps, r)
  {
    hide Replaced;
    ReplaceIsReplaced(s, x, marker);
    assert ([(x, marker)] + steps)[1..] == steps;
  }

  lemma NotWindows(home: string)
    ensures CaseSensitive(home) <==> !IsWindowsPath(home)
  {
    if |home| >= 2 {
      assert home[..2] == [home[0], home[1]];
    }
  }

  /** On a case-sensitive home, the sanitized text is the text after those replacements. */
  lemma SanitizedInTurn(value: string, home: string, redactions: seq<string>, fold: FoldReplace)
    requires CaseSensitive(home)
    ensures ReplacedInTurn(value, Steps(home, redactions), Sanitized(value, home, redactions, fold))
  {
    hide ReplacedInTurn, CaseSensitive, IsWindowsPath, ReplaceAll;
    NotWindows(home);
    if home == "" {
      RedactInTurn(value, redactions);
    } else {
      CandidatesAreSpellings(home);
      var a, b := Respelled(home, '\\', '/'), Respelled(home, '/', '\\');
      var first := ReplaceAll(value, home, HOME_MARKER);
      var second := ReplaceAll(first, a, HOME_MARKER);
      var third := ReplaceAll(second, b, HOME_MARKER);
      assert HideHome(third, home, fold, []) == third;
      assert [home, a, b][1..] == [a, b] && [a, b][1..] == [b] && [b][1..] == [];
      assert HideHome(second, home, fold, [b]) == third;
      assert HideHome(first, home, fold, [a, b]) == third;
      assert HideHome(value, home, fold, Candidates(home)) == third;
      var steps, r := Steps("", redactions), RedactAll(third, redactions);
      RedactInTurn(third, redactions);
      PrependStep(second, b, HOME_MARKER, steps, r);
      PrependStep(first, a, HOME_MARKER, [(b, HOME_MARKER)] + steps, r);
      PrependStep(value, home, HOME_MARKER, [(a, HOME_MARKER)] + ([(b, HOME_MARKER)] + steps), r);
      assert Steps(home, redactions)
             == [(home, HOME_MARKER)] + ([(a, HOME_MARKER)] + ([(b, HOME_MARKER)] + steps));
    }
  }

  /** On a Windows home the three spellings go in one case-insensitive pass each, the redactions as
      on any other. */
  lemma SanitizedOnWindows(value: string, home: string, redactions: seq<string>, fold: FoldReplace)
    requires !CaseSensitive(home)
    ensures ReplacedInTurn(
              fold(fold(fold(value, home), Respelled(home, '\\', '/')), Respelled(home, '/', '\\')),
              Steps("", redactions), Sanitized(value, home, redactions, fold))
  {
    hide ReplacedInTurn, IsWindowsPath, ReplaceAll;
    NotWindows(home);
    CandidatesAreSpellings(home);
    var a, b := Respelled(home, '\\', '/'), Respelled(home, '/', '\\');
    var third := fold(fold(fold(value, home), a), b);
    assert home != "";
    assert [home, a, b][1..] == [a, b] && [a, b][1..] == [b] && [b][1..] == [];
    assert HideHome(third, home, fold, []) == third;
    assert HideHome(fold(fold(value, home), a), home, fold, [b]) == third;
    assert HideHome(fold(value, home), home, fold, [a, b]) == third;
    RedactInTurn(third, redactions);
  }

  /** A text in which nothing is found is left alone. */
  lemma {:induction false} NothingToReplace(value: string, steps: seq<(string, string)>, r: string)
    requires forall s | s in steps :: s.0 != "" && !Contains(value, s.0)
    requires ReplacedInTurn(value, steps, r)
    ensures r == value
    decreases |steps|
  {
    hide Contains, Replaced;
    if steps != [] {
      var next :| Replaced(value, steps[0].0, steps[0].1, next) && ReplacedInTurn(next, steps[1..], r);
      ReplacedExactly(value, steps[0].0, steps[0].1, next);
      assert steps[0] in steps;
      NothingToReplace(value, steps[1..], r);
    }
  }

  // ---- When a redaction is complete -------------------------------------------------------

  /** r laid over the marker with its first character at offset k agrees wherever they overlap. */
  predicate Agrees(r: string, marker: string, k: int) {
    forall i | 0 <= i < |r| && 0 <= k + i < |marker| :: r[i] == marker[k + i]
  }

  /** No way of laying r over the marker agrees: an occurrence of r can never use a character
      of a marker. This is what a caller can test before choosing a redaction. */
  predicate Resists(r: string, marker: string) {
    r != "" && forall k | -|r| < k < |marker| :: !Agrees(r, marker, k)
  }

  lemma OverlapAgrees(a: string, marker: string, b: string, r: string, o: nat)
    requires OccursAt(a + marker + b, r, o)
    ensures Agrees(r, marker, o - |a|)
  {
  }

  /** An occurrence cannot straddle a marker it resists. */
  lemma NoStraddle(a: string, marker: string, b: string, r: string)
    requires marker != "" && Resists(r, marker)
    requires !Contains(a, r) && !Contains(b, r)
    ensures !Contains(a + marker + b, r)
  {
    var s := a + marker + b;
    forall o | 0 <= o <= |s| ensures !OccursAt(s, r, o) {
      if o + |r| <= |a| {
        assert s[..|a|] == a;
        SliceOccurs(s, 0, |a|, r, o);
        assert !OccursAt(a, r, o);
      } else if |a| + |marker| <= o {
        if o + |r| <= |s| {
          assert s[|a| + |marker|..] == b;
          SliceOccurs(s, |a| + |marker|, |s|, r, o - |a| - |marker|);
          assert !OccursAt(b, r, o - |a| - |marker|);
        }
      } else {
        assert !Agrees(r, marker, o - |a|);
        if OccursAt(s, r, o) { OverlapAgrees(a, marker, b, r, o); }
      }
    }
  }

  lemma SubstringLacks(s: string, lo: nat, hi: nat, r: string)
    requires lo <= hi <= |s| && !Contains(s, r)
    ensures !Contains(s[lo..hi], r)
  {
    forall i | 0 <= i <= hi - lo ensures !OccursAt(s[lo..hi], r, i) {
      if i + |r| <= hi - lo {
        SliceOccurs(s, lo, hi, r, i);
        assert !OccursAt(s, r, lo + i);
      }
    }
  }

  lemma EmptyLacks(r: string, marker: string)
    requires Resists(r, marker)
    ensures r != "" && !Contains("", r)
  {
  }

  lemma {:induction false} SpreadLacks(s: string, marker: string, r: string)
    requires marker != "" && Resists(r, marker) && !Contains(s, r)
    ensures !Contains(Spread(s, marker), r)
  {
    EmptyLacks(r, marker);
    if s != "" {
      SubstringLacks(s, 0, 1, r);
      SubstringLacks(s, 1, |s|, r);
      assert s[1..] == s[1..|s|];
      SpreadLacks(s[1..], marker, r);
      NoStraddle(s[..1], marker, Spread(s[1..], marker), r);
    }
  }

  /** Replacing anything by a marker never creates an occurrence of a text the marker resists. */
  lemma {:induction false} ReplaceKeepsAbsent(s: string, old_: string, marker: string, r: string)
    requires marker != "" && Resists(r, marker) && !Contains(s, r)
    ensures !Contains(ReplaceAll(s, old_, marker), r)
    decreases |s|
  {
    hide Contains, OccursAt, Resists;
    if old_ == "" {
      EmptyLacks(r, marker);
      SpreadLacks(s, marker, r);
      NoStraddle("", marker, Spread(s, marker), r);
      assert "" + marker + Spread(s, marker) == ReplaceAll(s, old_, marker);
    } else {
      var i := IndexOf(s, old_);
      if i != -1 {
        SubstringLacks(s, 0, i, r);
        SubstringLacks(s, i + |old_|, |s|, r);
        assert s[i + |old_|..] == s[i + |old_|..|s|];
        ReplaceKeepsAbsent(s[i + |old_|..], old_, marker, r);
        NoStraddle(s[..i], marker, ReplaceAll(s[i + |old_|..], old_, marker), r);
      }
    }
  }

  lemma LacksBeforeFirst(s: string, r: string, marker: string)
    requires Resists(r, marker) && IndexOf(s, r) != -1
    ensures !Contains(s[..IndexOf(s, r)], r)
  {
    var i := IndexOf(s, r);
    forall j | 0 <= j <= i ensures !OccursAt(s[..i], r, j) {
      if j + |r| <= i {
        assert !OccursAt(s, r, j);
        SliceOccurs(s, 0, i, r, j);
      }
    }
  }

  /** Replacing a text the marker resists removes every occurrence of it. */
  lemma {:induction false} ReplaceRemoves(s: string, r: string, marker: string)
    requires marker != "" && Resists(r, marker)
    ensures !Contains(ReplaceAll(s, r, marker), r)
    decreases |s|
  {
    hide Contains, OccursAt, Resists, IndexOf;
    EmptyLacks(r, marker);
    var i := IndexOf(s, r);
    if i != -1 {
      LacksBeforeFirst(s, r, marker);
      ReplaceRemoves(s[i + |r|..], r, marker);
      NoStraddle(s[..i], marker, ReplaceAll(s[i + |r|..], r, marker), r);
    }
  }

  lemma {:induction false} RedactKeepsAbsent(value: string, redactions: seq<string>, r: string)
    requires Resists(r, REDACTED_VALUE) && !Contains(value, r)
    ensures !Contains(RedactAll(value, redactions), r)
    decreases |redactions|
  {
    if redactions != [] {
      ReplaceKeepsAbsent(value, redactions[0], REDACTED_VALUE, r);
      RedactKeepsAbsent(ReplaceAll(value, redactions[0], REDACTED_VALUE), redactions[1..], r);
    }
  }

  lemma {:induction false} RedactRemoves(value: string, redactions: seq<string>, r: string)
    requires r in redactions && Resists(r, REDACTED_VALUE)
    ensures !Contains(RedactAll(value, redactions), r)
    decreases |redactions|
  {
    var next := ReplaceAll(value, redactions[0], REDACTED_VALUE);
    if redactions[0] == r {
      ReplaceRemoves(value, r, REDACTED_VALUE);
      RedactKeepsAbsent(next, redactions[1..], r);
    } else {
      RedactRemoves(next, redactions[1..], r);
    }
  }

  /** Whatever the other redactions are and in whatever order they run, and whatever the home
      pass did, a redaction that resists the marker does not occur in the result. */
  lemma RedactionComplete(value: string, home: string, redactions: seq<string>, fold: FoldReplace, r: string)
    requires r in redactions && Resists(r, REDACTED_VALUE)
    ensures !Contains(Sanitized(value, home, redactions, fold), r)
  {
    RedactRemoves(if home == "" then value else HideHome(value, home, fold, Candidates(home)), redactions, r);
  }

  // ---- The condition is exact -------------------------------------------------------------

  /** If r agrees with the marker at offset k, this text around one marker spells out r. */
  lemma Reassembled(r: string, marker: string, k: int) returns (pre: string, post: string)
    requires -|r| < k < |marker| && Agrees(r, marker, k) && |marker| > 0 && |r| > 0
    ensures |pre| + |post| < |r| <= |pre| + |marker| + |post| && Contains(pre + marker + post, r)
  {
    pre := if k < 0 then r[..-k] else "";
    post := if k + |r| > |marker| then r[|marker| - k..] else "";
    var s := pre + marker + post;
    var o := if k < 0 then 0 else k;
    forall i | 0 <= i < |r| ensures o + i < |s| && s[o + i] == r[i] {
      if 0 <= k + i < |marker| {
        assert r[i] == marker[k + i];
        assert o + i == |pre| + k + i;
      }
    }
    assert OccursAt(s, r, o);
  }

  lemma ReplaceFirst(s: string, x: string, marker: string, i: nat)
    requires x != "" && i + |x| <= |s| && OccursAt(s, x, i) && forall j | 0 <= j < i :: !OccursAt(s, x, j)
    requires !Contains(s[i + |x|..], x)
    ensures ReplaceAll(s, x, marker) == s[..i] + marker + s[i + |x|..]
  {
    hide Contains, OccursAt, IndexOf;
    IndexIs(s, x, i);
    assert IndexOf(s[i + |x|..], x) == -1;
  }

  lemma IndexIs(s: string, x: string, i: nat)
    requires i <= |s| && OccursAt(s, x, i) && forall j | 0 <= j < i :: !OccursAt(s, x, j)
    ensures IndexOf(s, x) == i
  {
  }

  /** A run of c's between shorter texts that do not touch it with a c occurs there once. */
  lemma ReplaceOnce(pre: string, x: string, post: string, marker: string, c: char)
    requires |pre| < |x| && |post| < |x| && forall i | 0 <= i < |x| :: x[i] == c
    requires pre != "" ==> pre[|pre| - 1] != c
    ensures ReplaceAll(pre + x + post, x, marker) == pre + marker + post
  {
    hide ReplaceAll;
    var s := pre + x + post;
    assert OccursAt(s, x, |pre|);
    forall j | 0 <= j < |pre| ensures !OccursAt(s, x, j) {
      assert s[j + (|pre| - 1 - j)] == pre[|pre| - 1] != x[|pre| - 1 - j];
    }
    assert s[..|pre|] == pre && s[|pre| + |x|..] == post;
    ReplaceFirst(s, x, marker, |pre|);
  }

  /** A run of c's as long as r hides r from the text around it. */
  lemma RunHides(pre: string, x: string, post: string, r: string, c: char)
    requires |pre| < |r| && |post| < |r| && |x| == |r| && forall i | 0 <= i < |x| :: x[i] == c
    requires |pre| + |post| < |r| && r[0] != c && r[|r| - 1] != c
    ensures !Contains(pre + x + post, r)
  {
  }

  /** One of four characters differs from any three given. */
  function Fresh(a: char, b: char, c: char): (x: char)
    ensures x !in {a, b, c}
  {
    if 'a' !in {a, b, c} then 'a'
    else if 'b' !in {a, b, c} then 'b'
    else if 'c' !in {a, b, c} then 'c'
    else 'd'
  }

  /** A text that does not resist the marker: there is an input free of it, and a second redaction
      whose marker completes it again. */
  lemma CounterExample(r: string) returns (value: string, other: string)
    requires r != "" && !Resists(r, REDACTED_VALUE)
    ensures !Contains(value, r) && Contains(ReplaceAll(value, other, REDACTED_VALUE), r)
  {
    hide Contains;
    var k :| -|r| < k < |REDACTED_VALUE| && Agrees(r, REDACTED_VALUE, k);
    var pre, post := Reassembled(r, REDACTED_VALUE, k);
    var c := Fresh(r[0], r[|r| - 1], if pre == "" then r[0] else pre[|pre| - 1]);
    other := seq(|r|, _ => c);
    value := pre + other + post;
    RunHides(pre, other, post, r, c);
    ReplaceOnce(pre, other, post, REDACTED_VALUE, c);
  }

  /** A redaction disappears from every text under every list that names it exactly when it
      resists the marker. */
  lemma RedactionExact(r: string, fold: FoldReplace)
    ensures Resists(r, REDACTED_VALUE) <==>
            forall value, redactions | r in redactions :: !Contains(Sanitized(value, "", redactions, fold), r)
  {
    if Resists(r, REDACTED_VALUE) {
      forall value, redactions | r in redactions ensures !Contains(Sanitized(value, "", redactions, fold), r) {
        RedactionComplete(value, "", redactions, fold, r);
      }
    } else if r == "" {
      assert OccursAt(Sanitized("", "", [r], fold), r, 0);
      assert r in [r];
    } else {
      var value, other := CounterExample(r);
      var redactions := [r, other];
      assert redactions[1..] == [other] && [other][1..] == [];
      assert IndexOf(value, r) == -1;
      assert RedactAll(value, redactions) == RedactAll(value, [other]) == ReplaceAll(value, other, REDACTED_VALUE);
      assert r in redactions;
      assert Contains(Sanitized(value, "", redactions, fold), r);
    }
  }

  /** For text without square brackets the condition reads: r is not part of the word between
      the brackets. */
  lemma BracketFreeResists(r: string, word: string)
    requires r != "" && '[' !in r && ']' !in r
    ensures Resists(r, "[" + word + "]") <==> !Contains(word, r)
  {
    var marker := "[" + word + "]";
    if Contains(word, r) {
      var o :| 0 <= o <= |word| && OccursAt(word, r, o);
      forall i | 0 <= i < |r| && 0 <= o + 1 + i < |marker| ensures r[i] == marker[o + 1 + i] {
        assert word[o + i] == r[i];
      }
      assert Agrees(r, marker, o + 1);
    } else {
      forall k | -|r| < k < |marker| ensures !Agrees(r, marker, k) {
        if k <= 0 {
          assert r[-k] in r && marker[k + -k] == '[';
        } else if |marker| <= k + |r| {
          assert r[|marker| - 1 - k] in r && marker[k + (|marker| - 1 - k)] == ']';
        } else {
          assert !OccursAt(word, r, k - 1);
          var j :| 0 <= j < |r| && word[k - 1 + j] != r[j];
          assert marker[k + j] == word[k - 1 + j];
        }
      }
    }
  }

  // ---- The home path ----------------------------------------------------------------------

  lemma {:induction false} ReplaceChars(s: string, old_: string, new_: string, c: char)
    requires |old_| == 1
    ensures c in ReplaceAll(s, old_, new_) ==> c in s || c in new_
    ensures c in s && c != old_[0] ==> c in ReplaceAll(s, old_, new_)
    ensures old_[0] in s && c in new_ ==> c in ReplaceAll(s, old_, new_)
    decreases |s|
  {
    var i := IndexOf(s, old_);
    if i == -1 {
      if old_[0] in s {
        var j :| 0 <= j < |s| && s[j] == old_[0];
        assert OccursAt(s, old_, j);
      }
    } else {
      assert s[i + 0] == old_[0];
      assert s == s[..i] + [s[i]] + s[i + 1..];
      ReplaceChars(s[i + 1..], old_, new_, c);
    }
  }

  /** Every spelling of a slash-holding, bracket-free home resists both markers. */
  lemma CandidateResists(home: string, c: string)
    requires '/' in home && '[' !in home && ']' !in home && c in Candidates(home)
    ensures Resists(c, HOME_MARKER) && Resists(c, REDACTED_VALUE)
  {
    hide Contains, Resists, ReplaceAll;
    ReplaceChars(home, "\\", "/", '/');
    ReplaceChars(home, "\\", "/", '[');
    ReplaceChars(home, "\\", "/", ']');
    ReplaceChars(home, "/", "\\", '\\');
    ReplaceChars(home, "/", "\\", '[');
    ReplaceChars(home, "/", "\\", ']');
    assert '/' in c || '\\' in c;
    WordLacks("HOME", c);
    WordLacks("REDACTED", c);
    BracketFreeResists(c, "HOME");
    BracketFreeResists(c, "REDACTED");
    assert "[" + "HOME" + "]" == HOME_MARKER && "[" + "REDACTED" + "]" == REDACTED_VALUE;
  }

  lemma WordLacks(word: string, c: string)
    requires '/' !in word && '\\' !in word && ('/' in c || '\\' in c)
    ensures !Contains(word, c)
  {
  }

  lemma {:induction false} HideRemoves(value: string, home: string, fold: FoldReplace, candidates: seq<string>,
                                       c: string)
    requires !IsWindowsPath(home) && Resists(c, HOME_MARKER)
    requires c in candidates || !Contains(value, c)
    ensures !Contains(HideHome(value, home, fold, candidates), c)
    decreases |candidates|
  {
    if candidates != [] {
      var next := ReplaceAll(value, candidates[0], HOME_MARKER);
      if candidates[0] == c {
        ReplaceRemoves(value, c, HOME_MARKER);
      } else if !Contains(value, c) {
        ReplaceKeepsAbsent(value, candidates[0], HOME_MARKER, c);
      }
      HideRemoves(next, home, fold, candidates[1..], c);
    }
  }

  /** A bracket-free home path holding a slash occurs in the result in none of its spellings,
      whatever redactions ran after it. */
  lemma HomeNeverLeaks(value: string, home: string, redactions: seq<string>, fold: FoldReplace, c: string)
    requires '/' in home && '[' !in home && ']' !in home && !IsWindowsPath(home)
    requires c in Candidates(home)
    ensures !Contains(Sanitized(value, home, redactions, fold), c)
  {
    CandidateResists(home, c);
    HideRemoves(value, home, fold, Candidates(home), c);
    RedactKeepsAbsent(HideHome(value, home, fold, Candidates(home)), redactions, c);
  }
}
