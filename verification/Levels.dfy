/** What a division of an acyclic graph into deployment levels is, and what it must be. */
module Levels {
  import opened Sequences
  import opened Ordering
  import opened Walks

  type Levels = seq<seq<string>>

  /** The index of the level holding n, or -1. */
  function LevelOf(levels: Levels, n: string): (k: int)
    ensures -1 <= k < |levels|
    ensures k >= 0 ==> n in levels[k]
    ensures k < 0 ==> forall i :: 0 <= i < |levels| ==> n !in levels[i]
  {
    if levels == [] then -1
    else if n in levels[|levels| - 1] then |levels| - 1
    else LevelOf(levels[..|levels| - 1], n)
  }

  lemma LevelOfSnoc(levels: Levels, level: seq<string>, n: string)
    ensures LevelOf(levels + [level], n) == if n in level then |levels| else LevelOf(levels, n)
  {
    assert (levels + [level])[..|levels|] == levels;
  }

  /** The levels list exactly the given names, each once, every level nonempty and sorted. */
  ghost predicate Partition(levels: Levels, names: set<string>) {
    && (forall i, n :: 0 <= i < |levels| && n in levels[i] ==> LevelOf(levels, n) == i && n in names)
    && (forall n :: n in names ==> LevelOf(levels, n) >= 0)
    && (forall i :: 0 <= i < |levels| ==> levels[i] != [] && StrictlySorted(Below, levels[i]))
  }

  /** Some dependency of n sits on the level just below n's. */
  ghost predicate Tight(g: Graph, levels: Levels, n: string) {
    exists d :: Edge(g, n, d) && LevelOf(levels, d) == LevelOf(levels, n) - 1
  }

  /** Every vertex of the graph is placed once: above all its dependencies, and no higher than it must be. */
  ghost predicate IsLevelling(g: Graph, levels: Levels) {
    && Partition(levels, g.Keys)
    && (forall n, d :: Edge(g, n, d) ==> 0 <= LevelOf(levels, d) < LevelOf(levels, n))
    && (forall n {:trigger Tight(g, levels, n)} :: n in g && LevelOf(levels, n) > 0 ==> Tight(g, levels, n))
  }

  lemma LevellingAcyclic(g: Graph, levels: Levels)
    requires IsLevelling(g, levels)
    ensures !Cyclic(g)
  {
    var rank: map<string, nat> := map n | n in g :: LevelOf(levels, n);
    RankedAcyclic(g, rank);
  }

  /** The level is 0 without dependencies and otherwise one more than the largest dependency level. */
  lemma LevelIsOnePlusMaximum(g: Graph, levels: Levels, n: string)
    requires IsLevelling(g, levels) && n in g
    ensures g[n] == [] ==> LevelOf(levels, n) == 0
    ensures g[n] != [] ==>
              && (forall d :: d in g[n] ==> LevelOf(levels, d) + 1 <= LevelOf(levels, n))
              && (exists d :: d in g[n] && LevelOf(levels, d) + 1 == LevelOf(levels, n))
  {
    assert LevelOf(levels, n) > 0 ==> Tight(g, levels, n);
    if g[n] != [] {
      assert Edge(g, n, g[n][0]);
      assert Tight(g, levels, n);
    }
    assert forall d :: d in g[n] ==> Edge(g, n, d);
  }

  /** The level of a vertex is the length of its longest dependency path: no walk from n is longer... */
  lemma NoLongerWalk(g: Graph, levels: Levels, p: seq<string>)
    requires IsLevelling(g, levels) && IsWalk(g, p) && p[0] in g
    ensures |p| - 1 <= LevelOf(levels, p[0])
  {
    var rank: map<string, nat> := map n | n in g :: LevelOf(levels, n);
    WalkDropsRank(g, rank, p);
  }

  /** ...and one walk is exactly that long. */
  lemma {:induction false} LongestWalkExists(g: Graph, levels: Levels, n: string) returns (p: seq<string>)
    requires IsLevelling(g, levels) && n in g
    ensures IsWalk(g, p) && p[0] == n && |p| - 1 == LevelOf(levels, n)
    decreases LevelOf(levels, n)
  {
    p := [n];
    if LevelOf(levels, n) > 0 {
      assert Tight(g, levels, n);
      var d :| Edge(g, n, d) && LevelOf(levels, d) == LevelOf(levels, n) - 1;
      var q := LongestWalkExists(g, levels, d);
      p := [n] + q;
    }
  }

  /** Any assignment of waves that respects the dependencies puts every vertex at least as late. */
  lemma LevelIsEarliest(g: Graph, levels: Levels, wave: map<string, nat>, n: string)
    requires IsLevelling(g, levels) && n in g
    requires forall a, b :: Edge(g, a, b) ==> a in wave && b in wave && wave[b] < wave[a]
    requires n in wave
    ensures LevelOf(levels, n) <= wave[n]
  {
    var p := LongestWalkExists(g, levels, n);
    WalkDropsRank(g, wave, p);
  }

  /** So a levelling has the fewest possible levels. */
  lemma LevelsAreFewest(g: Graph, levels: Levels, wave: map<string, nat>, waves: nat)
    requires IsLevelling(g, levels) && wave.Keys == g.Keys
    requires forall a, b :: Edge(g, a, b) ==> a in wave && b in wave && wave[b] < wave[a]
    requires forall n :: n in wave ==> wave[n] < waves
    ensures |levels| <= waves
  {
    if levels != [] {
      var top := levels[|levels| - 1][0];
      assert top in levels[|levels| - 1];
      LevelIsEarliest(g, levels, wave, top);
    }
  }

  lemma SameLevel(g: Graph, a: Levels, b: Levels, n: string)
    requires IsLevelling(g, a) && IsLevelling(g, b) && n in g
    ensures LevelOf(a, n) <= LevelOf(b, n)
  {
    var rank: map<string, nat> := map x | x in g :: LevelOf(b, x);
    LevelIsEarliest(g, a, rank, n);
  }

  /** A graph has at most one levelling, so the order in which maps are iterated cannot show. */
  lemma LevellingUnique(g: Graph, a: Levels, b: Levels)
    requires IsLevelling(g, a) && IsLevelling(g, b)
    ensures a == b
  {
    LevellingsEqualUpTo(g, a, b);
    LevellingsEqualUpTo(g, b, a);
    assert |a| == |b|;
  }

  lemma LevellingsEqualUpTo(g: Graph, a: Levels, b: Levels)
    requires IsLevelling(g, a) && IsLevelling(g, b)
    ensures |a| <= |b| && forall i :: 0 <= i < |a| ==> a[i] == b[i]
  {
    forall n | n in g ensures LevelOf(a, n) == LevelOf(b, n) {
      SameLevel(g, a, b, n);
      SameLevel(g, b, a, n);
    }
    if a != [] {
      var top := a[|a| - 1][0];
      assert top in a[|a| - 1];
      assert LevelOf(a, top) == |a| - 1 && top in g;
    }
    forall i | 0 <= i < |a| ensures a[i] == b[i] {
      LevelDetermined(a, b, g.Keys, i);
    }
  }

  lemma LevelDetermined(a: Levels, b: Levels, names: set<string>, i: nat)
    requires Partition(a, names) && Partition(b, names)
    requires forall n :: n in names ==> LevelOf(a, n) == LevelOf(b, n)
    requires i < |a| && i < |b|
    ensures a[i] == b[i]
  {
    assert Elements(a[i]) == Elements(b[i]) by {
      assert forall n :: n in a[i] ==> LevelOf(b, n) == i;
      assert forall n :: n in b[i] ==> LevelOf(a, n) == i;
    }
    BelowIsStrictOrder(Elements(a[i]));
    SortedUnique(Below, a[i], b[i]);
  }

  /** A transitive dependency sits on a lower level. */
  lemma DependencyIsLower(g: Graph, levels: Levels, n: string, d: string)
    requires IsLevelling(g, levels) && Depends(g, n, d)
    ensures 0 <= LevelOf(levels, d) < LevelOf(levels, n)
  {
    var p :| |p| >= 2 && WalkBetween(g, n, d, p);
    var rank: map<string, nat> := map x | x in g :: LevelOf(levels, x);
    assert Edge(g, p[0], p[1]);
    WalkDropsRank(g, rank, p);
  }

  lemma FlattenPartition(levels: Levels, names: set<string>)
    requires Partition(levels, names)
    ensures NoDuplicates(Flatten(levels)) && Elements(Flatten(levels)) == names
  {
    forall n ensures n in Flatten(levels) <==> n in names {
      FlattenMember(levels, n);
    }
    FlattenDistinct(levels);
  }

  lemma {:induction false} FlattenDistinct(levels: Levels)
    requires forall i, n :: 0 <= i < |levels| && n in levels[i] ==> LevelOf(levels, n) == i
    requires forall i :: 0 <= i < |levels| ==> StrictlySorted(Below, levels[i])
    ensures NoDuplicates(Flatten(levels))
  {
    if levels != [] {
      var init, last := levels[..|levels| - 1], levels[|levels| - 1];
      assert levels == init + [last];
      forall i, n | 0 <= i < |init| && n in init[i] ensures LevelOf(init, n) == i {
        assert n in levels[i];
        LevelOfSnoc(init, last, n);
      }
      FlattenDistinct(init);
      FlattenSnoc(init, last);
      forall x { BelowIrreflexive(x); }
      StrictlySortedNoDuplicates(Below, last);
      forall n | n in Flatten(init) ensures n !in last {
        FlattenMember(init, n);
        var i :| 0 <= i < |init| && n in init[i];
        assert n in levels[i];
        LevelOfSnoc(init, last, n);
      }
      NoDuplicatesConcat(Flatten(init), last);
    }
  }
}
