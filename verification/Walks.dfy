/** Directed graphs given by adjacency lists: walks, cycles and reachability. */
module Walks {
  import opened Sequences

  type Graph = map<string, seq<string>>

  ghost predicate Edge(g: Graph, a: string, b: string) {
    a in g && b in g[a]
  }

  ghost predicate IsWalk(g: Graph, p: seq<string>) {
    && |p| > 0
    && forall i, j :: 0 <= i < |p| - 1 && j == i + 1 ==> Edge(g, p[i], p[j])
  }

  ghost predicate IsCycle(g: Graph, p: seq<string>) {
    |p| >= 2 && IsWalk(g, p) && p[0] == p[|p| - 1]
  }

  ghost predicate Cyclic(g: Graph) {
    exists p :: IsCycle(g, p)
  }

  ghost predicate WalkBetween(g: Graph, a: string, b: string, p: seq<string>) {
    IsWalk(g, p) && p[0] == a && p[|p| - 1] == b
  }

  /** b is a or a transitive dependency of a. */
  ghost predicate Reaches(g: Graph, a: string, b: string) {
    exists p :: WalkBetween(g, a, b, p)
  }

  /** b is a transitive dependency of a, over at least one edge. */
  ghost predicate Depends(g: Graph, a: string, b: string) {
    exists p :: |p| >= 2 && WalkBetween(g, a, b, p)
  }

  lemma ReachesSelf(g: Graph, a: string)
    ensures Reaches(g, a, a)
  {
    assert WalkBetween(g, a, a, [a]);
  }

  lemma ReachesStep(g: Graph, a: string, b: string, c: string)
    requires Reaches(g, a, b) && Edge(g, b, c)
    ensures Reaches(g, a, c)
  {
    var p :| WalkBetween(g, a, b, p);
    assert WalkBetween(g, a, c, p + [c]);
  }

  /** A subset containing a and closed under edges contains everything a reaches. */
  lemma {:induction false} ClosedContainsReachable(g: Graph, s: set<string>, p: seq<string>)
    requires forall a, b :: a in s && Edge(g, a, b) ==> b in s
    requires IsWalk(g, p) && p[0] in s
    ensures forall x :: x in p ==> x in s
  {
    if |p| > 1 {
      assert Edge(g, p[0], p[1]);
      assert IsWalk(g, p[1..]) by {
        forall i | 0 <= i < |p[1..]| - 1 ensures Edge(g, p[1..][i], p[1..][i + 1]) {
          assert Edge(g, p[i + 1], p[i + 2]);
        }
      }
      ClosedContainsReachable(g, s, p[1..]);
      assert p == [p[0]] + p[1..];
    }
  }

  /** Every listed vertex has all its successors listed strictly earlier. */
  ghost predicate DependenciesFirst(g: Graph, order: seq<string>) {
    forall i, d :: 0 <= i < |order| && Edge(g, order[i], d) ==> d in order[..i]
  }

  /** Along a walk the listing position drops at every step. */
  lemma {:induction false} WalkDescends(g: Graph, order: seq<string>, p: seq<string>, i: nat)
    requires DependenciesFirst(g, order) && IsWalk(g, p)
    requires i < |order| && order[i] == p[0]
    ensures |p| - 1 <= i
    ensures p[|p| - 1] in order[..i + 1 - (|p| - 1)]
    decreases |p|
  {
    if |p| == 1 {
      assert order[..i + 1][i] == p[0];
    } else {
      assert Edge(g, p[0], p[1]);
      var k :| 0 <= k < |order[..i]| && order[..i][k] == p[1];
      assert order[k] == p[1] && k < i;
      var q := p[1..];
      assert IsWalk(g, q) by {
        forall j | 0 <= j < |q| - 1 ensures Edge(g, q[j], q[j + 1]) {
          assert Edge(g, p[j + 1], p[j + 2]);
        }
      }
      WalkDescends(g, order, q, k);
      assert q[|q| - 1] == p[|p| - 1];
      var short, long := order[..k + 1 - (|q| - 1)], order[..i + 1 - (|p| - 1)];
      assert |short| <= |long| && short == long[..|short|];
    }
  }

  /** A walk from a vertex of a duplicate-free dependencies-first listing never comes back to it. */
  lemma ListedNotRevisited(g: Graph, order: seq<string>, p: seq<string>)
    requires DependenciesFirst(g, order) && NoDuplicates(order)
    requires IsWalk(g, p) && |p| >= 2 && p[0] in order
    ensures p[0] != p[|p| - 1]
  {
    var i :| 0 <= i < |order| && order[i] == p[0];
    WalkDescends(g, order, p, i);
    var prefix := order[..i + 1 - (|p| - 1)];
    var k :| 0 <= k < |prefix| && prefix[k] == p[|p| - 1];
    assert order[k] == p[|p| - 1] && k < i;
  }

  /** A function that drops along every edge rules out cycles. */
  lemma {:induction false} WalkDropsRank(g: Graph, rank: map<string, nat>, p: seq<string>)
    requires forall a, b :: Edge(g, a, b) ==> a in rank && b in rank && rank[b] < rank[a]
    requires IsWalk(g, p) && p[0] in rank
    ensures p[|p| - 1] in rank && rank[p[|p| - 1]] + |p| - 1 <= rank[p[0]]
    decreases |p|
  {
    if |p| > 1 {
      assert Edge(g, p[0], p[1]);
      var q := p[1..];
      assert IsWalk(g, q) by {
        forall j | 0 <= j < |q| - 1 ensures Edge(g, q[j], q[j + 1]) {
          assert Edge(g, p[j + 1], p[j + 2]);
        }
      }
      WalkDropsRank(g, rank, q);
      assert q[|q| - 1] == p[|p| - 1];
    }
  }

  lemma RankedAcyclic(g: Graph, rank: map<string, nat>)
    requires forall a, b :: Edge(g, a, b) ==> a in rank && b in rank && rank[b] < rank[a]
    ensures !Cyclic(g)
  {
    if p :| IsCycle(g, p) {
      assert Edge(g, p[0], p[1]);
      WalkDropsRank(g, rank, p);
    }
  }

  /** next picks, for every vertex of s, a successor inside s. */
  ghost predicate StuckIn(g: Graph, s: set<string>, next: map<string, string>) {
    s <= next.Keys && forall x {:trigger next[x]} :: x in s ==> next[x] in s && Edge(g, x, next[x])
  }

  lemma {:induction false} StuckWalk(g: Graph, s: set<string>, next: map<string, string>, a: string, n: nat)
    returns (p: seq<string>)
    requires a in s && StuckIn(g, s, next)
    ensures IsWalk(g, p) && |p| == n + 1 && forall x :: x in p ==> x in s
  {
    p := [a];
    if n > 0 {
      var q := StuckWalk(g, s, next, a, n - 1);
      var last := q[|q| - 1];
      assert last in q;
      p := q + [next[last]];
    }
  }

  /** A stretch of a walk between two visits of one vertex is a cycle. */
  lemma RevisitCyclic(g: Graph, p: seq<string>, i: nat, j: nat)
    requires IsWalk(g, p) && i < j < |p| && p[i] == p[j]
    ensures IsCycle(g, p[i..j + 1])
  {
    var c := p[i..j + 1];
    forall k | 0 <= k < |c| - 1 ensures Edge(g, c[k], c[k + 1]) {
      assert Edge(g, p[i + k], p[i + k + 1]);
    }
  }

  /** A nonempty finite set in which everyone has a successor inside contains a cycle. */
  lemma StuckSetCyclic(g: Graph, s: set<string>, next: map<string, string>)
    requires s != {} && StuckIn(g, s, next)
    ensures Cyclic(g)
  {
    var a :| a in s;
    var p := StuckWalk(g, s, next, a, |s|);
    var i, j := Pigeonhole(p, s);
    RevisitCyclic(g, p, i, j);
  }
}
