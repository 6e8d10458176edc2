/** String order and sorting, as the components use sort.Slice, sort.Strings and slices.SortFunc. */
module Ordering {
  import opened Sequences

  /** Strict lexicographic order of strings. */
  predicate Below(a: string, b: string) {
    if b == [] then false
    else if a == [] then true
    else a[0] < b[0] || (a[0] == b[0] && Below(a[1..], b[1..]))
  }

  lemma {:induction false} BelowIrreflexive(a: string)
    ensures !Below(a, a)
  {
    if a != [] {
      BelowIrreflexive(a[1..]);
    }
  }

  lemma {:induction false} BelowTransitive(a: string, b: string, c: string)
    requires Below(a, b) && Below(b, c)
    ensures Below(a, c)
  {
    if a != [] && a[0] == b[0] == c[0] {
      BelowTransitive(a[1..], b[1..], c[1..]);
    }
  }

  lemma {:induction false} BelowConnected(a: string, b: string)
    requires a != b
    ensures Below(a, b) || Below(b, a)
  {
    if a != [] && b != [] && a[0] == b[0] {
      assert a == [a[0]] + a[1..] && b == [b[0]] + b[1..];
      BelowConnected(a[1..], b[1..]);
    }
  }

  /** Strings are ordered by their first difference, and a prefix comes before what extends it. */
  lemma {:induction false} BelowMeaning(a: string, b: string)
    ensures Below(a, b) <==>
            exists k :: 0 <= k <= |a| && k < |b| && a[..k] == b[..k] && (k == |a| || (k < |a| && a[k] < b[k]))
  {
    if a != [] && b != [] && a[0] == b[0] {
      BelowMeaning(a[1..], b[1..]);
      if k :| 0 <= k <= |a| && k < |b| && a[..k] == b[..k] && (k == |a| || (k < |a| && a[k] < b[k])) {
        assert k > 0 && a[1..][..k - 1] == a[..k][1..] && b[1..][..k - 1] == b[..k][1..];
      }
      var x, y := a[1..], b[1..];
      if k :| 0 <= k <= |x| && k < |y| && x[..k] == y[..k] && (k == |x| || (k < |x| && x[k] < y[k])) {
        assert a[..k + 1] == [a[0]] + x[..k] && b[..k + 1] == [b[0]] + y[..k];
        assert a[..k + 1] == b[..k + 1];
      }
    } else if b != [] {
      assert a[..0] == b[..0];
    }
  }

  /** What a comparator must satisfy for sorting to mean anything... */
  ghost predicate PartialOrderOn<T>(less: (T, T) -> bool, xs: set<T>) {
    && (forall a :: a in xs ==> !less(a, a))
    && (forall a, b, c :: a in xs && b in xs && c in xs && less(a, b) && less(b, c) ==> less(a, c))
  }

  /** ...and for the sorted list to be determined by it. */
  ghost predicate StrictOrderOn<T>(less: (T, T) -> bool, xs: set<T>) {
    && PartialOrderOn(less, xs)
    && (forall a, b :: a in xs && b in xs && a != b ==> less(a, b) || less(b, a))
  }

  ghost predicate StrictlySorted<T>(less: (T, T) -> bool, xs: seq<T>) {
    forall i, j :: 0 <= i < j < |xs| ==> less(xs[i], xs[j])
  }

  function Insert<T>(less: (T, T) -> bool, x: T, xs: seq<T>): seq<T> {
    if xs == [] then [x]
    else if less(x, xs[0]) then [x] + xs
    else [xs[0]] + Insert(less, x, xs[1..])
  }

  /** The result of sorting; SortedUnique says every sorting algorithm gives it. */
  function Sort<T>(less: (T, T) -> bool, xs: seq<T>): seq<T> {
    if xs == [] then [] else Insert(less, xs[0], Sort(less, xs[1..]))
  }

  lemma {:induction false} InsertElements<T>(less: (T, T) -> bool, x: T, xs: seq<T>)
    ensures multiset(Insert(less, x, xs)) == multiset(xs) + multiset{x}
    ensures |Insert(less, x, xs)| == |xs| + 1
  {
    if xs != [] {
      assert xs == [xs[0]] + xs[1..];
      InsertElements(less, x, xs[1..]);
    }
  }

  lemma {:induction false} SortElements<T>(less: (T, T) -> bool, xs: seq<T>)
    ensures multiset(Sort(less, xs)) == multiset(xs)
    ensures |Sort(less, xs)| == |xs|
    ensures Elements(Sort(less, xs)) == Elements(xs)
  {
    if xs != [] {
      assert xs == [xs[0]] + xs[1..];
      SortElements(less, xs[1..]);
      InsertElements(less, xs[0], Sort(less, xs[1..]));
    }
    PermutedMembers(Sort(less, xs), xs);
  }

  lemma PermutedMembers<T>(xs: seq<T>, ys: seq<T>)
    requires multiset(xs) == multiset(ys)
    ensures |xs| == |ys| && Elements(xs) == Elements(ys)
  {
    assert |xs| == |multiset(xs)| == |ys|;
    assert forall x :: x in xs <==> x in multiset(xs);
    assert forall x :: x in ys <==> x in multiset(ys);
  }

  /** Sorted, with equal elements allowed. */
  ghost predicate Ordered<T>(less: (T, T) -> bool, xs: seq<T>) {
    forall i, j :: 0 <= i < j < |xs| ==> !less(xs[j], xs[i])
  }

  lemma {:induction false} InsertOrdered<T>(less: (T, T) -> bool, x: T, xs: seq<T>)
    requires PartialOrderOn(less, Elements(xs) + {x}) && Ordered(less, xs)
    ensures Ordered(less, Insert(less, x, xs))
  {
    if xs != [] {
      var all := Elements(xs) + {x};
      assert xs[0] in all && x in all;
      if less(x, xs[0]) {
        forall j | 0 <= j < |xs| ensures !less(xs[j], x) {
          assert xs[j] in all;
          assert !less(xs[j], xs[0]);
        }
      } else {
        var rest := xs[1..];
        assert Elements(rest) + {x} <= all;
        InsertOrdered(less, x, rest);
        InsertElements(less, x, rest);
        var r := Insert(less, x, rest);
        forall j | 0 <= j < |r| ensures !less(r[j], xs[0]) {
          assert r[j] in multiset(r);
          assert r[j] in rest || r[j] == x;
          if r[j] in rest {
            var k :| 0 <= k < |rest| && rest[k] == r[j];
            assert xs[k + 1] == r[j];
          }
        }
      }
    }
  }

  lemma {:induction false} SortOrdered<T>(less: (T, T) -> bool, xs: seq<T>)
    requires PartialOrderOn(less, Elements(xs))
    ensures Ordered(less, Sort(less, xs))
  {
    if xs != [] {
      var rest := xs[1..];
      assert Elements(rest) <= Elements(xs);
      SortOrdered(less, rest);
      SortElements(less, rest);
      assert xs[0] in Elements(xs);
      InsertOrdered(less, xs[0], Sort(less, rest));
    }
  }

  /** A sorted list stays as it is. */
  lemma {:induction false} SortKeepsSorted<T>(less: (T, T) -> bool, xs: seq<T>)
    requires StrictlySorted(less, xs)
    ensures Sort(less, xs) == xs
  {
    if xs != [] {
      SortKeepsSorted(less, xs[1..]);
      assert xs == [xs[0]] + xs[1..];
      assert |xs| > 1 ==> xs[1..][0] == xs[1];
    }
  }

  lemma SortSorted<T>(less: (T, T) -> bool, xs: seq<T>)
    requires StrictOrderOn(less, Elements(xs)) && NoDuplicates(xs)
    ensures StrictlySorted(less, Sort(less, xs))
  {
    var s := Sort(less, xs);
    SortOrdered(less, xs);
    SortElements(less, xs);
    NoDuplicatesCardinality(xs);
    ElementsCardinality(s);
    forall i, j | 0 <= i < j < |s| ensures less(s[i], s[j]) {
      assert s[i] in Elements(s) && s[j] in Elements(s);
    }
  }

  /** A strictly sorted listing of a set is unique, so the choice of sorting algorithm is immaterial. */
  lemma {:induction false} SortedUnique<T>(less: (T, T) -> bool, xs: seq<T>, ys: seq<T>)
    requires StrictOrderOn(less, Elements(xs))
    requires StrictlySorted(less, xs) && StrictlySorted(less, ys)
    requires Elements(xs) == Elements(ys)
    ensures xs == ys
  {
    assert forall x :: x in xs <==> x in Elements(xs);
    assert forall y :: y in ys <==> y in Elements(ys);
    if xs == [] {
      EmptyElements(ys);
    } else {
      assert xs[0] in ys && ys[0] in xs;
      var i :| 0 <= i < |ys| && ys[i] == xs[0];
      var j :| 0 <= j < |xs| && xs[j] == ys[0];
      assert xs[0] in Elements(xs) && ys[0] in Elements(xs);
      assert xs[0] == ys[0];
      var xt, yt := xs[1..], ys[1..];
      assert Elements(xt) == Elements(xs) - {xs[0]} by { SortedTail(less, xs); }
      assert Elements(yt) == Elements(ys) - {ys[0]} by { SortedTail(less, ys); }
      SortedUnique(less, xt, yt);
      assert xs == [xs[0]] + xt && ys == [ys[0]] + yt;
    }
  }

  lemma SortedTail<T>(less: (T, T) -> bool, xs: seq<T>)
    requires xs != [] && StrictOrderOn(less, Elements(xs)) && StrictlySorted(less, xs)
    ensures Elements(xs[1..]) == Elements(xs) - {xs[0]}
  {
    forall x | x in xs[1..] ensures x in xs && x != xs[0] {
      var k :| 0 <= k < |xs[1..]| && xs[1..][k] == x;
      assert less(xs[0], xs[k + 1]) && xs[0] in Elements(xs);
    }
    forall x | x in xs && x != xs[0] ensures x in xs[1..] {
      var k :| 0 <= k < |xs| && xs[k] == x;
      assert xs[1..][k - 1] == x;
    }
  }

  lemma StrictlySortedNoDuplicates<T>(less: (T, T) -> bool, xs: seq<T>)
    requires StrictlySorted(less, xs) && forall x :: x in xs ==> !less(x, x)
    ensures NoDuplicates(xs)
  {
  }

  lemma SortedNamesDistinct(names: seq<string>)
    requires StrictlySorted(Below, names)
    ensures NoDuplicates(names)
  {
    forall i, j | 0 <= i < j < |names| ensures names[i] != names[j] {
      BelowIrreflexive(names[i]);
    }
  }

  lemma BelowIsStrictOrder(xs: set<string>)
    ensures StrictOrderOn(Below, xs)
  {
    forall a { BelowIrreflexive(a); }
    forall a, b, c | Below(a, b) && Below(b, c) { BelowTransitive(a, b, c); }
    forall a, b: string | a != b { BelowConnected(a, b); }
  }

  function SortNames(names: seq<string>): seq<string> {
    Sort(Below, names)
  }

  lemma SortNamesOrdered(names: seq<string>)
    ensures Ordered(Below, SortNames(names)) && multiset(SortNames(names)) == multiset(names)
    ensures |SortNames(names)| == |names|
  {
    BelowIsStrictOrder(Elements(names));
    SortOrdered(Below, names);
    SortElements(Below, names);
  }

  lemma SortNamesSorted(names: seq<string>)
    requires NoDuplicates(names)
    ensures StrictlySorted(Below, SortNames(names))
    ensures Elements(SortNames(names)) == Elements(names)
    ensures |SortNames(names)| == |names|
    ensures NoDuplicates(SortNames(names))
  {
    BelowIsStrictOrder(Elements(names));
    SortSorted(Below, names);
    SortElements(Below, names);
    SortedNamesDistinct(SortNames(names));
  }
}
