/** Whether the order in which local definitions are written shows in their values, internal/bundle/expressions.go. */
module WrittenOrder {
  import opened Wrappers
  import opened Sequences
  import opened Ordering
  import opened Walks
  import opened LocalOrder
  import opened Expressions
  import opened LocalEvaluation
  import opened BundleSource

  // What an order puts before a local.

  /** One of the two transitively references the other by name. */
  ghost predicate Comparable(defs: Definitions, n: string, m: string) {
    Depends(ReferenceGraph(defs), n, m) || Depends(ReferenceGraph(defs), m, n)
  }

  /** Every local that uses all locals at once is comparable with every other local. */
  ghost predicate BareComparable(defs: Definitions) {
    forall n, m :: n in defs && !NamedOnly(defs[n]) && m in defs && m != n ==> Comparable(defs, n, m)
  }

  lemma EvaluationOrderDependencies(defs: Definitions, order: seq<string>)
    requires EvaluationOrder(defs, order)
    ensures DependenciesFirst(ReferenceGraph(defs), order)
  {
    forall i, d | 0 <= i < |order| && Edge(ReferenceGraph(defs), order[i], d) ensures d in order[..i] {
      assert MentionsEarlier(defs, order, i);
      ReferenceEdges(defs, order[i], d);
    }
  }

  /** What a local depends on comes before it, in any order. */
  lemma DependencyBefore(g: Graph, order: seq<string>, n: string, m: string)
    requires DependenciesFirst(g, order) && NoDuplicates(order) && n in order && Depends(g, n, m)
    ensures m in Before(order, n)
  {
    var i :| 0 <= i < |order| && order[i] == n;
    var p :| |p| >= 2 && WalkBetween(g, n, m, p);
    WalkDescends(g, order, p, i);
    var short := order[..i + 1 - (|p| - 1)];
    var k :| 0 <= k < |short| && short[k] == m;
    assert order[..i][k] == m;
    BeforeAt(order, i);
  }

  lemma NotBeforeEachOther(order: seq<string>, n: string, m: string)
    requires NoDuplicates(order) && n in order && m in order && n in Before(order, m)
    ensures m !in Before(order, n)
  {
    var i :| 0 <= i < |order| && order[i] == n;
    var j :| 0 <= j < |order| && order[j] == m;
    BeforeAt(order, i);
    BeforeAt(order, j);
    var k :| 0 <= k < j && order[..j][k] == n;
    assert order[k] == order[i];
  }

  lemma NotBeforeItself(order: seq<string>, n: string)
    requires NoDuplicates(order) && n in order
    ensures n !in Before(order, n)
  {
    var i :| 0 <= i < |order| && order[i] == n;
    BeforeAt(order, i);
  }

  /** Of what a local is comparable with, it finds its dependencies before it and nothing else, in any order. */
  lemma ScopeOfComparable(g: Graph, order: seq<string>, n: string, m: string)
    requires DependenciesFirst(g, order) && NoDuplicates(order) && n in order && m in order
    requires Depends(g, n, m) || Depends(g, m, n)
    ensures m in Before(order, n) <==> Depends(g, n, m)
  {
    if Depends(g, n, m) {
      DependencyBefore(g, order, n, m);
    } else {
      DependencyBefore(g, order, m, n);
      NotBeforeEachOther(order, n, m);
    }
  }

  lemma ComparableSameScope(g: Graph, a: seq<string>, b: seq<string>, n: string)
    requires DependenciesFirst(g, a) && NoDuplicates(a) && DependenciesFirst(g, b) && NoDuplicates(b)
    requires Elements(a) == Elements(b) && n in Elements(a)
    requires forall m :: m in Elements(a) && m != n ==> Depends(g, n, m) || Depends(g, m, n)
    ensures Before(a, n) == Before(b, n)
  {
    assert n in a && n in b;
    NotBeforeItself(a, n);
    NotBeforeItself(b, n);
    BeforeListed(a, n);
    BeforeListed(b, n);
    forall m | m in Elements(a) && m != n ensures m in Before(a, n) <==> m in Before(b, n) {
      assert m in Elements(b) && m in a && m in b;
      ScopeOfComparable(g, a, n, m);
      ScopeOfComparable(g, b, n, m);
    }
  }

  lemma ComparableSameScopes(defs: Definitions, a: seq<string>, b: seq<string>)
    requires EvaluationOrder(defs, a) && EvaluationOrder(defs, b) && BareComparable(defs)
    ensures SameBareScopes(defs, a, b)
  {
    EvaluationOrderDependencies(defs, a);
    EvaluationOrderDependencies(defs, b);
    forall n | n in defs && !NamedOnly(defs[n]) ensures Before(a, n) == Before(b, n) {
      assert forall m :: m in defs && m != n ==> Comparable(defs, n, m);
      ComparableSameScope(ReferenceGraph(defs), a, b, n);
    }
  }

  // How the written order shows.

  ghost predicate Lists(defs: Definitions, sources: seq<string>) {
    NoDuplicates(sources) && Elements(sources) == defs.Keys
  }

  function SortedLocals(defs: Definitions, sources: seq<string>): (order: seq<string>)
    ensures forall n :: n in order ==> n in defs
  {
    SortedFrom(ReferenceGraph(defs), defs.Keys, sources)
  }

  lemma SortedEvaluates(defs: Definitions, sources: seq<string>)
    requires LocalsOrderable(defs) && Lists(defs, sources)
    ensures EvaluationOrder(defs, SortedLocals(defs, sources))
  {
    OrderableFromAll(defs, sources);
    SortedFromIsSorted(ReferenceGraph(defs), defs.Keys, sources);
    SortedIsEvaluationOrder(defs, sources, SortedLocals(defs, sources));
  }

  /** What is written first is ordered right behind what it depends on, and before all else. */
  lemma FirstSorted(defs: Definitions, sources: seq<string>) returns (k: nat)
    requires LocalsOrderable(defs) && Lists(defs, sources) && sources != []
    ensures var order := SortedLocals(defs, sources);
            && k < |order| && order[k] == sources[0]
            && forall x :: x in order[..k + 1] ==> Reaches(ReferenceGraph(defs), sources[0], x)
  {
    var g, n := ReferenceGraph(defs), sources[0];
    var first, needed := PostOrder(g, defs.Keys, [], {}, n), iset x | Reaches(g, n, x);
    assert n in sources && n in Elements(sources);
    forall a, b | a in needed && Edge(g, a, b) ensures b in needed {
      ReachesStep(g, n, a, b);
    }
    ReachedAreClean(defs, n);
    ReachesSelf(g, n);
    VisitSorted(g, defs.Keys, needed, [], {}, n);
    FirstVisitStays(g, defs.Keys, sources, |sources|);
    k := |first| - 1;
    assert SortedLocals(defs, sources)[..k + 1] == first;
  }

  lemma ReachedAreClean(defs: Definitions, n: string)
    requires LocalsOrderable(defs) && n in defs
    ensures forall x :: Reaches(ReferenceGraph(defs), n, x) ==> x in defs && !OnCycle(ReferenceGraph(defs), x)
  {
    var g := ReferenceGraph(defs);
    forall x | Reaches(g, n, x) ensures x in defs && !OnCycle(g, x) {
      var p :| WalkBetween(g, n, x, p);
      forall a, b | a in defs.Keys && Edge(g, a, b) ensures b in defs.Keys {
        ReferenceEdges(defs, a, b);
      }
      ClosedContainsReachable(g, defs.Keys, p);
      assert p[|p| - 1] in p;
    }
  }

  lemma ReachesOther(g: Graph, n: string, m: string)
    requires Reaches(g, n, m) && n != m
    ensures Depends(g, n, m)
  {
    var p :| WalkBetween(g, n, m, p);
    assert |p| >= 2;
  }

  /** Written first, a local finds nothing before it that it does not depend on. */
  lemma WrittenFirst(defs: Definitions, sources: seq<string>, m: string)
    requires LocalsOrderable(defs) && Lists(defs, sources) && sources != []
    requires m != sources[0] && !Depends(ReferenceGraph(defs), sources[0], m)
    ensures m !in Before(SortedLocals(defs, sources), sources[0])
  {
    var order := SortedLocals(defs, sources);
    var k := FirstSorted(defs, sources);
    SortedEvaluates(defs, sources);
    BeforeAt(order, k);
    forall x | x in order[..k] && x != sources[0] ensures Depends(ReferenceGraph(defs), sources[0], x) {
      var j :| 0 <= j < k && order[..k][j] == x;
      assert order[..k + 1][j] == x;
      ReachesOther(ReferenceGraph(defs), sources[0], x);
    }
  }

  /** ...and is found by every local that it does not depend on. */
  lemma FoundByOthers(defs: Definitions, sources: seq<string>, n: string)
    requires LocalsOrderable(defs) && Lists(defs, sources) && sources != []
    requires n in defs && n != sources[0] && !Depends(ReferenceGraph(defs), sources[0], n)
    ensures sources[0] in Before(SortedLocals(defs, sources), n)
  {
    var order := SortedLocals(defs, sources);
    var k := FirstSorted(defs, sources);
    SortedEvaluates(defs, sources);
    assert n in Elements(order);
    var i :| 0 <= i < |order| && order[i] == n;
    if i <= k {
      assert order[..k + 1][i] == n;
      ReachesOther(ReferenceGraph(defs), sources[0], n);
    }
    BeforeAt(order, i);
    assert order[..i][k] == sources[0];
  }

  lemma ListedFirst(defs: Definitions, n: string) returns (sources: seq<string>)
    requires n in defs
    ensures Lists(defs, sources) && sources != [] && sources[0] == n
  {
    var rest := ListElements(defs.Keys - {n});
    assert n !in Elements(rest);
    sources := [n] + rest;
    forall i, j | 0 <= i < j < |sources| ensures sources[i] != sources[j] {
      assert rest[j - 1] in Elements(rest);
      assert i > 0 ==> sources[i] == rest[i - 1];
    }
    assert Elements(sources) == {n} + Elements(rest);
  }

  // Files.

  /** Two ways to write the same locals, in one block or several, in any order. */
  ghost predicate SameLocals(x: seq<Block>, y: seq<Block>) {
    WellFormed(x) && WellFormed(y) && LocalsOf(x) == LocalsOf(y)
  }

  /** The locals in one block, written in the order of the names. */
  function InBlock(defs: Definitions, names: seq<string>): seq<Block>
    requires forall n :: n in names ==> n in defs
  {
    [Block("locals", Body(Written(defs, names), []))]
  }

  function Written(defs: Definitions, names: seq<string>): seq<Attribute>
    requires forall n :: n in names ==> n in defs
  {
    seq(|names|, i requires 0 <= i < |names| =>
      assert names[i] in names; Attribute(names[i], defs[names[i]], i, i + 1))
  }

  lemma ListedNames(defs: Definitions, names: seq<string>)
    requires Lists(defs, names)
    ensures forall n :: n in names ==> n in defs
  {
    assert forall n :: n in names ==> n in Elements(names);
  }

  lemma WrittenDefinitions(defs: Definitions, names: seq<string>)
    requires Lists(defs, names) && forall n :: n in names ==> n in defs
    ensures DistinctNames(Written(defs, names)) && DefinitionsOf(Written(defs, names)) == defs
  {
    var attributes := Written(defs, names);
    DefinitionsByName(attributes);
    forall n | n in defs ensures n in DefinitionsOf(attributes) && DefinitionsOf(attributes)[n] == defs[n] {
      assert n in Elements(names);
      var i :| 0 <= i < |names| && names[i] == n;
      assert attributes[i] in attributes;
    }
    forall n | n in DefinitionsOf(attributes) ensures n in defs {
      var a :| a in attributes && a.name == n;
    }
  }

  lemma InBlockNames(defs: Definitions, names: seq<string>)
    requires forall n :: n in names ==> n in defs
    ensures LocalAttributes(InBlock(defs, names)) == Written(defs, names)
    ensures NamesOf(InSourceOrder(InBlock(defs, names))) == names
  {
    OneBlock(InBlock(defs, names)[0]);
    SortedBlock(InBlock(defs, names)[0]);
    assert NamesOf(Written(defs, names)) == names;
  }

  lemma InBlockReads(defs: Definitions, names: seq<string>)
    requires LocalsOrderable(defs) && Lists(defs, names) && forall n :: n in names ==> n in defs
    ensures WellFormed(InBlock(defs, names)) && LocalsOf(InBlock(defs, names)) == defs
    ensures LocalsOrder(InBlock(defs, names)) == SortedLocals(defs, names)
  {
    InBlockNames(defs, names);
    WrittenDefinitions(defs, names);
  }

  /** Comparable bare locals, whatever else the expressions are: the written order shows neither in success nor in the
      values. */
  lemma ComparableOrderIrrelevant(x: seq<Block>, y: seq<Block>, arch: string, files: Option<map<string, string>>)
    requires SameLocals(x, y) && BareComparable(LocalsOf(x))
    ensures LocalValues(x, arch, files).Ok? <==> LocalValues(y, arch, files).Ok?
    ensures LocalValues(x, arch, files).Ok? ==> LocalValues(y, arch, files) == LocalValues(x, arch, files)
  {
    var defs, a, b := LocalsOf(x), LocalsOrder(x), LocalsOrder(y);
    LocalsOrderEvaluates(x);
    LocalsOrderEvaluates(y);
    ComparableSameScopes(defs, a, b);
    if LocalValues(x, arch, files).Ok? {
      OrderIrrelevantExactly(defs, arch, files, a, b);
    } else if LocalValues(y, arch, files).Ok? {
      OrderIrrelevantExactly(defs, arch, files, b, a);
    }
  }

  ghost predicate WrittenOrderIrrelevant(blocks: seq<Block>, arch: string, files: Option<map<string, string>>) {
    forall other :: SameLocals(other, blocks) ==> LocalValues(other, arch, files) == LocalValues(blocks, arch, files)
  }

  /** When locals name what they reference or are the object of all locals, the values of an extractable file do not
      depend on how the locals are written exactly when every other local is a transitive dependency or a transitive
      dependent of each of the latter. */
  lemma WrittenOrderIrrelevantExactly(blocks: seq<Block>, arch: string, files: Option<map<string, string>>)
    requires WellFormed(blocks) && LocalValues(blocks, arch, files).Ok? && NamedOrWhole(LocalsOf(blocks))
    ensures WrittenOrderIrrelevant(blocks, arch, files) <==> BareComparable(LocalsOf(blocks))
  {
    var defs := LocalsOf(blocks);
    if BareComparable(defs) {
      forall other | SameLocals(other, blocks)
        ensures LocalValues(other, arch, files) == LocalValues(blocks, arch, files) {
        ComparableOrderIrrelevant(blocks, other, arch, files);
      }
    }
    if WrittenOrderIrrelevant(blocks, arch, files) {
      forall n, m | n in defs && !NamedOnly(defs[n]) && m in defs && m != n ensures Comparable(defs, n, m) {
        if !Comparable(defs, n, m) {
          WrittenOrderShows(blocks, arch, files, n, m);
        }
      }
    }
  }

  lemma AlsoInBlock(blocks: seq<Block>, arch: string, files: Option<map<string, string>>, names: seq<string>)
    requires WellFormed(blocks) && WrittenOrderIrrelevant(blocks, arch, files) && Lists(LocalsOf(blocks), names)
    ensures EvaluationOrder(LocalsOf(blocks), SortedLocals(LocalsOf(blocks), names))
    ensures EvaluateInOrder(LocalsOf(blocks), arch, files, SortedLocals(LocalsOf(blocks), names))
         == LocalValues(blocks, arch, files)
  {
    var defs := LocalsOf(blocks);
    ListedNames(defs, names);
    InBlockReads(defs, names);
    SortedEvaluates(defs, names);
    assert SameLocals(InBlock(defs, names), blocks);
  }

  /** Neither depending on the other, two locals can be written so that the bare one finds the other or does not. */
  lemma WrittenOrderShows(blocks: seq<Block>, arch: string, files: Option<map<string, string>>, n: string, m: string)
    requires WellFormed(blocks) && LocalValues(blocks, arch, files).Ok? && NamedOrWhole(LocalsOf(blocks))
    requires n in LocalsOf(blocks) && !NamedOnly(LocalsOf(blocks)[n]) && m in LocalsOf(blocks) && m != n
    requires !Comparable(LocalsOf(blocks), n, m)
    ensures !WrittenOrderIrrelevant(blocks, arch, files)
  {
    var defs := LocalsOf(blocks);
    var ns := ListedFirst(defs, n);
    var ms := ListedFirst(defs, m);
    WrittenFirst(defs, ns, m);
    FoundByOthers(defs, ms, n);
    if WrittenOrderIrrelevant(blocks, arch, files) {
      AlsoInBlock(blocks, arch, files, ns);
      AlsoInBlock(blocks, arch, files, ms);
      EqualValuesSameScopes(defs, arch, files, SortedLocals(defs, ns), SortedLocals(defs, ms));
      assert false;
    }
  }

  // The order can show.

  function WholeAndOther(a: string, b: string, v: Value): Definitions {
    map[a := WholeLocal, b := Literal(v)]
  }

  lemma NoEdgesNoCycles(g: Graph)
    requires forall n :: Dependencies(g, n) == []
    ensures forall n :: !OnCycle(g, n)
  {
    forall p ensures !IsCycle(g, p) {
      assert |p| >= 2 && IsWalk(g, p) ==> Edge(g, p[0], p[1]);
      assert |p| >= 2 ==> Dependencies(g, p[0]) == [];
    }
  }

  lemma NoReferences(a: string, b: string, v: Value)
    ensures forall n :: Dependencies(ReferenceGraph(WholeAndOther(a, b, v)), n) == []
    ensures LocalsOrderable(WholeAndOther(a, b, v))
  {
    var defs := WholeAndOther(a, b, v);
    assert References(WholeLocal) == [None] && References(Literal(v)) == [];
    forall n ensures Dependencies(ReferenceGraph(defs), n) == [] {
      if n in defs {
        FirstUsesMembers(References(defs[n]));
        assert Elements(DependencyNames(defs[n])) == {};
        EmptyElements(DependencyNames(defs[n]));
      }
    }
    NoEdgesNoCycles(ReferenceGraph(defs));
  }

  lemma SortTwo(g: Graph, exprs: set<string>, x: string, y: string)
    requires x != y && x in exprs && y in exprs && forall n :: Dependencies(g, n) == []
    ensures SortedFrom(g, exprs, [x, y]) == [x, y]
  {
    var names := [x, y];
    assert PostOrderAll(g, exprs, [], {x}, [], 0) == [] && PostOrderAll(g, exprs, [x], {y}, [], 0) == [x];
    assert {} + {x} == {x} && {} + {y} == {y};
    assert PostOrder(g, exprs, [], {}, x) == [x];
    assert PostOrder(g, exprs, [x], {}, y) == [x, y];
    assert PostOrderAll(g, exprs, [], {}, names, 1) == [x];
    assert PostOrderAll(g, exprs, [], {}, names, 2) == [x, y];
  }

  lemma EvaluateTwo(defs: Definitions, arch: string, files: Option<map<string, string>>, x: string, y: string,
                    first: Value, second: Value)
    requires x in defs && y in defs
    requires Eval(defs[x], Context(map[], arch, files)) == Ok(first)
    requires Eval(defs[y], Context(map[x := first], arch, files)) == Ok(second)
    ensures EvaluateInOrder(defs, arch, files, [x, y]) == Ok(map[x := first][y := second])
  {
    var none: map<string, Value> := map[];
    assert [x, y][..1] == [x] && [x][..0] == [];
    assert none[x := first] == map[x := first];
    assert EvaluateInOrder(defs, arch, files, [x]) == Ok(map[x := first]);
  }

  lemma BothListed(defs: Definitions, x: string, y: string)
    requires x != y && defs.Keys == {x, y}
    ensures Lists(defs, [x, y]) && forall n :: n in [x, y] ==> n in defs
  {
    assert [x, y][0] == x && [x, y][1] == y;
  }

  lemma InBlockSorted(a: string, b: string, v: Value, x: string, y: string)
    requires a != b && {x, y} == {a, b} && x != y
    ensures Lists(WholeAndOther(a, b, v), [x, y]) && forall n :: n in [x, y] ==> n in WholeAndOther(a, b, v)
    ensures var blocks := InBlock(WholeAndOther(a, b, v), [x, y]);
            WellFormed(blocks) && LocalsOf(blocks) == WholeAndOther(a, b, v) && LocalsOrder(blocks) == [x, y]
  {
    var defs := WholeAndOther(a, b, v);
    BothListed(defs, x, y);
    NoReferences(a, b, v);
    InBlockReads(defs, [x, y]);
    SortTwo(ReferenceGraph(defs), defs.Keys, x, y);
  }

  /** locals { a = local, b = v } and locals { b = v, a = local }: written first, a holds nothing; written second, b. */
  lemma BareLocalShowsWrittenOrder(a: string, b: string, v: Value, arch: string, files: Option<map<string, string>>)
    requires a != b
    ensures forall n :: n in [a, b] ==> n in WholeAndOther(a, b, v)
    ensures forall n :: n in [b, a] ==> n in WholeAndOther(a, b, v)
    ensures var x, y := InBlock(WholeAndOther(a, b, v), [a, b]), InBlock(WholeAndOther(a, b, v), [b, a]);
            && SameLocals(x, y) && LocalsOrder(x) == [a, b] && LocalsOrder(y) == [b, a]
            && LocalValues(x, arch, files) == Ok(map[a := Object(map[])][b := v])
            && LocalValues(y, arch, files) == Ok(map[b := v][a := Object(map[b := v])])
  {
    var defs := WholeAndOther(a, b, v);
    InBlockSorted(a, b, v, a, b);
    InBlockSorted(a, b, v, b, a);
    EvaluateTwo(defs, arch, files, a, b, Object(map[]), v);
    EvaluateTwo(defs, arch, files, b, a, v, Object(map[b := v]));
  }
}
