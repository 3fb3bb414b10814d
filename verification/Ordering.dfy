/** The byte order on strings used by Go's sort.Strings, and sorting as a canonical form:
    the result of a sort is determined by the elements alone, whatever order a map was
    iterated in to collect them. */
module Ordering {

  /** Lexicographic order on strings. */
  predicate StringLe(a: string, b: string) {
    a == "" || (b != "" && (a[0] < b[0] || (a[0] == b[0] && StringLe(a[1..], b[1..]))))
  }

  /** The order: a prefix comes first, otherwise the first difference decides. */
  lemma {:induction false} StringLeExactly(a: string, b: string)
    ensures StringLe(a, b) <==>
              a <= b || exists k | 0 <= k < |a| && k < |b| :: a[..k] == b[..k] && a[k] < b[k]
  {
    forall k | 0 < k < |a| && k < |b| && a[..k] == b[..k] ensures a[0] == b[0] {
      assert a[..k][0] == a[0] && b[..k][0] == b[0];
    }
    if a != "" && b != "" && a[0] == b[0] {
      StringLeExactly(a[1..], b[1..]);
      assert a == [a[0]] + a[1..] && b == [b[0]] + b[1..];
      assert a <= b <==> a[1..] <= b[1..];
      if k :| 0 <= k < |a[1..]| && k < |b[1..]| && a[1..][..k] == b[1..][..k] && a[1..][k] < b[1..][k] {
        assert a[..k + 1] == [a[0]] + a[1..][..k] && b[..k + 1] == [b[0]] + b[1..][..k];
        assert a[..k + 1] == b[..k + 1] && a[k + 1] < b[k + 1];
      }
      if k :| 0 <= k < |a| && k < |b| && a[..k] == b[..k] && a[k] < b[k] {
        assert a[1..][..k - 1] == a[..k][1..] && b[1..][..k - 1] == b[..k][1..];
        assert a[1..][k - 1] < b[1..][k - 1];
      }
    } else if a != "" && b != "" {
      if a[0] < b[0] { assert a[..0] == b[..0]; }
    }
  }

  lemma {:induction false} StringLeTotal(a: string, b: string)
    ensures StringLe(a, b) || StringLe(b, a)
    ensures StringLe(a, b) && StringLe(b, a) ==> a == b
  {
    if a != "" && b != "" && a[0] == b[0] {
      StringLeTotal(a[1..], b[1..]);
      if StringLe(a, b) && StringLe(b, a) {
        assert a == [a[0]] + a[1..] && b == [b[0]] + b[1..];
      }
    }
  }

  lemma {:induction false} StringLeTransitive(a: string, b: string, c: string)
    requires StringLe(a, b) && StringLe(b, c)
    ensures StringLe(a, c)
  {
    if a != "" && a[0] == b[0] == c[0] {
      StringLeTransitive(a[1..], b[1..], c[1..]);
    }
  }

  ghost predicate TotalOrder<T(!new)>(le: (T, T) -> bool) {
    && (forall a, b :: le(a, b) || le(b, a))
    && (forall a, b :: le(a, b) && le(b, a) ==> a == b)
    && (forall a, b, c :: le(a, b) && le(b, c) ==> le(a, c))
  }

  lemma StringOrder()
    ensures TotalOrder(StringLe)
  {
    forall a, b ensures (StringLe(a, b) || StringLe(b, a)) && (StringLe(a, b) && StringLe(b, a) ==> a == b) {
      StringLeTotal(a, b);
    }
    forall a, b, c | StringLe(a, b) && StringLe(b, c) ensures StringLe(a, c) {
      StringLeTransitive(a, b, c);
    }
  }

  predicate Ordered<T>(s: seq<T>, le: (T, T) -> bool) {
    forall i, j | 0 <= i < j < |s| :: le(s[i], s[j])
  }

  function Insert<T>(x: T, s: seq<T>, le: (T, T) -> bool): (r: seq<T>)
    ensures multiset(r) == multiset(s) + multiset{x}
  {
    if s == [] then [x]
    else if le(x, s[0]) then [x] + s
    else
      var r := [s[0]] + Insert(x, s[1..], le);
      assert s == [s[0]] + s[1..];
      r
  }

  /** What the sort library returns: the elements in order. */
  function Sort<T>(s: seq<T>, le: (T, T) -> bool): (r: seq<T>)
    ensures multiset(r) == multiset(s)
  {
    if s == [] then [] else
      assert s == [s[0]] + s[1..];
      Insert(s[0], Sort(s[1..], le), le)
  }

  lemma {:induction false} InsertOrdered<T(!new)>(x: T, s: seq<T>, le: (T, T) -> bool)
    requires TotalOrder(le) && Ordered(s, le)
    ensures Ordered(Insert(x, s, le), le)
  {
    if s != [] && !le(x, s[0]) {
      InsertOrdered(x, s[1..], le);
      var rest := Insert(x, s[1..], le);
      forall j | 0 <= j < |rest| ensures le(s[0], rest[j]) {
        assert rest[j] in multiset(rest);
        if rest[j] != x {
          assert rest[j] in multiset(s[1..]);
          assert rest[j] in s[1..];
        }
      }
    } else if s != [] {
      forall j | 0 <= j < |s| ensures le(x, s[j]) {
        if j > 0 { assert le(x, s[0]) && le(s[0], s[j]); }
      }
    }
  }

  lemma {:induction false} SortOrdered<T(!new)>(s: seq<T>, le: (T, T) -> bool)
    requires TotalOrder(le)
    ensures Ordered(Sort(s, le), le)
  {
    if s != [] {
      SortOrdered(s[1..], le);
      InsertOrdered(s[0], Sort(s[1..], le), le);
    }
  }

  /** Sorted order is a canonical form: it depends on the multiset of elements only. */
  lemma {:induction false} OrderedUnique<T(!new)>(s: seq<T>, t: seq<T>, le: (T, T) -> bool)
    requires TotalOrder(le) && Ordered(s, le) && Ordered(t, le)
    requires multiset(s) == multiset(t)
    ensures s == t
  {
    hide TotalOrder, Ordered;
    assert |s| == |multiset(s)| == |multiset(t)| == |t|;
    if s != [] {
      assert s[0] in multiset(s) && t[0] in multiset(t);
      assert s[0] in t && t[0] in s;
      OrderedTail(s, t[0], le);
      OrderedTail(t, s[0], le);
      OrderedUnique(s[1..], t[1..], le);
    }
  }

  /** The head of an ordered sequence is least, and the rest is ordered and holds the rest. */
  lemma OrderedTail<T(!new)>(s: seq<T>, x: T, le: (T, T) -> bool)
    requires TotalOrder(le) && Ordered(s, le) && x in s
    ensures le(s[0], x) && (le(x, s[0]) ==> x == s[0])
    ensures Ordered(s[1..], le) && multiset(s[1..]) == multiset(s) - multiset{s[0]} && s == [s[0]] + s[1..]
  {
    assert s == [s[0]] + s[1..];
    assert le(s[0], s[0]);
  }

  /** Strictly increasing: ordered with no path twice. */
  ghost predicate Increasing(s: seq<string>) {
    && Ordered(s, StringLe)
    && (forall i, j | 0 <= i < j < |s| :: s[i] != s[j])
  }

  ghost function Elements<T>(s: seq<T>): set<T> {
    set x | x in s
  }

  lemma {:induction false} DistinctMultiset<T>(s: seq<T>)
    requires forall i, j | 0 <= i < j < |s| :: s[i] != s[j]
    ensures multiset(s) == multiset(Elements(s))
    ensures |s| == |Elements(s)|
  {
    if s != [] {
      DistinctMultiset(s[1..]);
      assert s == [s[0]] + s[1..];
      assert s[0] !in s[1..];
      assert Elements(s) == {s[0]} + Elements(s[1..]);
    }
  }

  lemma IncreasingUnique(s: seq<string>, t: seq<string>)
    requires Increasing(s) && Increasing(t)
    requires Elements(s) == Elements(t)
    ensures s == t
  {
    DistinctMultiset(s);
    DistinctMultiset(t);
    StringOrder();
    OrderedUnique(s, t, StringLe);
  }

  lemma {:induction false} MultisetDistinct(s: seq<string>)
    requires forall x :: multiset(s)[x] <= 1
    ensures forall i, j | 0 <= i < j < |s| :: s[i] != s[j]
  {
    if s != [] {
      assert s == [s[0]] + s[1..];
      assert multiset(s) == multiset{s[0]} + multiset(s[1..]);
      assert multiset(s)[s[0]] <= 1;
      forall x ensures multiset(s[1..])[x] <= 1 { assert multiset(s)[x] <= 1; }
      MultisetDistinct(s[1..]);
      assert forall j | 0 < j < |s| :: s[j] == s[1..][j - 1] && s[j] in s[1..];
    }
  }

  lemma SameElements(s: seq<string>, t: seq<string>)
    requires multiset(s) == multiset(t)
    ensures Elements(s) == Elements(t)
  {
    forall x ensures x in s <==> x in t {
      assert x in s <==> x in multiset(s);
      assert x in t <==> x in multiset(t);
    }
  }

  /** Sorting a sequence without repetitions gives the increasing sequence of its elements. */
  lemma SortIncreasing(s: seq<string>)
    requires forall i, j | 0 <= i < j < |s| :: s[i] != s[j]
    ensures Increasing(Sort(s, StringLe)) && Elements(Sort(s, StringLe)) == Elements(s)
  {
    StringOrder();
    SortOrdered(s, StringLe);
    DistinctMultiset(s);
    MultisetDistinct(Sort(s, StringLe));
    SameElements(s, Sort(s, StringLe));
  }

  /** The keys of a map in sorted order, as a function of the key set. */
  ghost function SortedKeys(keys: set<string>): (r: seq<string>)
    ensures Increasing(r) && Elements(r) == keys
  {
    if keys == {} then [] else
      var k :| k in keys;
      var rest := SortedKeys(keys - {k});
      var s := [k] + rest;
      assert forall x :: x in s <==> x in keys by {
        assert forall x :: x in rest <==> x in Elements(rest);
      }
      assert forall i, j | 0 <= i < j < |s| :: s[i] != s[j] by {
        assert forall i | 0 <= i < |rest| :: rest[i] in Elements(rest);
      }
      assert Elements(s) == keys;
      SortIncreasing(s);
      Sort(s, StringLe)
  }

  /** Collects the keys in whatever order the map yields them, then sorts. */
  method SortedPaths(keys: set<string>) returns (paths: seq<string>)
    ensures paths == SortedKeys(keys)
  {
    paths := [];
    var remaining := keys;
    while remaining != {}
      invariant remaining <= keys
      invariant Elements(paths) == keys - remaining
      invariant forall i, j | 0 <= i < j < |paths| :: paths[i] != paths[j]
      decreases remaining
    {
      var path :| path in remaining;
      assert path !in Elements(paths);
      assert Elements(paths + [path]) == Elements(paths) + {path};
      paths := paths + [path];
      remaining := remaining - {path};
    }
    SortIncreasing(paths);
    paths := Sort(paths, StringLe);
    IncreasingUnique(paths, SortedKeys(keys));
  }
}
