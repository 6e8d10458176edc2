/** Ordering of local definitions by three-colour depth-first search, internal/bundle/expressions.go. */
module LocalOrder {
  import opened Wrappers
  import opened Sequences
  import opened Walks

  datatype OrderError =
    | CyclicDependency(cycle: seq<string>)
    | UndefinedDependency(name: string, usedBy: string)

  datatype Color = Visiting | Visited

  /** n is one of the sources or something they depend on, directly or not. */
  ghost predicate FromSources(g: Graph, sources: seq<string>, n: string) {
    exists r :: r in sources && Reaches(g, r, n)
  }

  ghost predicate OnCycle(g: Graph, n: string) {
    exists p :: IsCycle(g, p) && p[0] == n
  }

  lemma SourceItself(g: Graph, sources: seq<string>, n: string)
    requires n in sources
    ensures FromSources(g, sources, n)
  {
    ReachesSelf(g, n);
  }

  lemma SourceStep(g: Graph, sources: seq<string>, a: string, b: string)
    requires FromSources(g, sources, a) && Edge(g, a, b)
    ensures FromSources(g, sources, b)
  {
    var r :| r in sources && Reaches(g, r, a);
    ReachesStep(g, r, a, b);
  }

  /** Where one name stands: unknown, on the stack at its index and being visited, or listed and visited. */
  ghost predicate Placed(exprs: set<string>, needed: iset<string>, state: map<string, Color>, stack: seq<string>,
                         stackIndex: map<string, nat>, order: seq<string>, n: string) {
    && (n in state <==> n in stack || n in order) && (n in stackIndex <==> n in stack)
    && (n in state ==> n in exprs && n in needed)
    && (n in state ==> (state[n] == Visiting <==> n in stack) && (state[n] == Visited <==> n in order))
    && (n in stack ==> stackIndex[n] < |stack| && stack[stackIndex[n]] == n)
  }

  /** What the search keeps between calls. */
  ghost predicate SortState(g: Graph, exprs: set<string>, needed: iset<string>, state: map<string, Color>,
                            stack: seq<string>, stackIndex: map<string, nat>, order: seq<string>) {
    && NoDuplicates(stack) && NoDuplicates(order)
    && (forall n :: Placed(exprs, needed, state, stack, stackIndex, order, n))
    && DependenciesFirst(g, order)
    && (stack != [] ==> IsWalk(g, stack))
  }

  // The order as a function.

  function Dependencies(g: Graph, name: string): seq<string> {
    if name in g then g[name] else []
  }

  ghost predicate Keeps(before: seq<string>, after: seq<string>) {
    forall n :: n in before ==> n in after
  }

  /** The order after a visit of name, while the open names are being visited. */
  function PostOrder(g: Graph, exprs: set<string>, order: seq<string>, open: set<string>, name: string): seq<string>
    decreases exprs - open, 0, 0
  {
    if name !in exprs || name in open || name in order then order
    else
      var deps := Dependencies(g, name);
      PostOrderAll(g, exprs, order, open + {name}, deps, |deps|) + [name]
  }

  /** The order after visits of the first k names in turn. */
  function PostOrderAll(g: Graph, exprs: set<string>, order: seq<string>, open: set<string>, names: seq<string>, k: nat)
    : seq<string>
    requires k <= |names|
    decreases exprs - open, 1, k
  {
    if k == 0 then order
    else PostOrder(g, exprs, PostOrderAll(g, exprs, order, open, names, k - 1), open, names[k - 1])
  }

  lemma {:induction false} VisitKept(g: Graph, exprs: set<string>, order: seq<string>, open: set<string>, name: string)
    ensures Keeps(order, PostOrder(g, exprs, order, open, name))
    ensures forall n :: n in PostOrder(g, exprs, order, open, name) ==> n in order || n in exprs
    decreases exprs - open, 0, 0
  {
    if !(name !in exprs || name in open || name in order) {
      AllKept(g, exprs, order, open + {name}, Dependencies(g, name), |Dependencies(g, name)|);
    }
  }

  lemma {:induction false} AllKept(g: Graph, exprs: set<string>, order: seq<string>, open: set<string>,
                                   names: seq<string>, k: nat)
    requires k <= |names|
    ensures Keeps(order, PostOrderAll(g, exprs, order, open, names, k))
    ensures forall n :: n in PostOrderAll(g, exprs, order, open, names, k) ==> n in order || n in exprs
    decreases exprs - open, 1, k
  {
    if k > 0 {
      AllKept(g, exprs, order, open, names, k - 1);
      VisitKept(g, exprs, PostOrderAll(g, exprs, order, open, names, k - 1), open, names[k - 1]);
    }
  }

  lemma {:induction false} VisitExtends(g: Graph, exprs: set<string>, order: seq<string>, open: set<string>,
                                        name: string)
    ensures order <= PostOrder(g, exprs, order, open, name)
    decreases exprs - open, 0, 0
  {
    if !(name !in exprs || name in open || name in order) {
      AllExtend(g, exprs, order, open + {name}, Dependencies(g, name), |Dependencies(g, name)|);
    }
  }

  /** Visits only append. */
  lemma {:induction false} AllExtend(g: Graph, exprs: set<string>, order: seq<string>, open: set<string>,
                                     names: seq<string>, k: nat)
    requires k <= |names|
    ensures order <= PostOrderAll(g, exprs, order, open, names, k)
    decreases exprs - open, 1, k
  {
    if k > 0 {
      AllExtend(g, exprs, order, open, names, k - 1);
      VisitExtends(g, exprs, PostOrderAll(g, exprs, order, open, names, k - 1), open, names[k - 1]);
    }
  }

  lemma {:induction false} FirstVisitStays(g: Graph, exprs: set<string>, names: seq<string>, k: nat)
    requires 0 < k <= |names|
    ensures PostOrder(g, exprs, [], {}, names[0]) <= PostOrderAll(g, exprs, [], {}, names, k)
  {
    if k > 1 {
      FirstVisitStays(g, exprs, names, k - 1);
      VisitExtends(g, exprs, PostOrderAll(g, exprs, [], {}, names, k - 1), {}, names[k - 1]);
    } else {
      assert PostOrderAll(g, exprs, [], {}, names, 0) == [];
    }
  }

  /** The order of all sources and what they need. */
  function SortedFrom(g: Graph, exprs: set<string>, sources: seq<string>): (r: seq<string>)
    ensures forall n :: n in r ==> n in exprs
  {
    AllKept(g, exprs, [], {}, sources, |sources|);
    PostOrderAll(g, exprs, [], {}, sources, |sources|)
  }

  lemma ElementsAppend(xs: seq<string>, x: string)
    ensures Elements(xs + [x]) == Elements(xs) + {x}
    ensures NoDuplicates(xs + [x]) ==> NoDuplicates(xs) && x !in Elements(xs)
  {
    var whole := xs + [x];
    assert whole[|xs|] == x && forall i :: 0 <= i < |xs| ==> whole[i] == xs[i];
  }

  lemma Enter(g: Graph, exprs: set<string>, needed: iset<string>, state: map<string, Color>,
              stack: seq<string>, stackIndex: map<string, nat>, order: seq<string>, name: string)
    requires SortState(g, exprs, needed, state, stack, stackIndex, order)
    requires name in exprs && name !in state && Needed(g, needed, stack, name)
    ensures SortState(g, exprs, needed, state[name := Visiting], stack + [name], stackIndex[name := |stack|], order)
  {
    assert Placed(exprs, needed, state, stack, stackIndex, order, name);
    var state', stack', index' := state[name := Visiting], stack + [name], stackIndex[name := |stack|];
    forall n ensures Placed(exprs, needed, state', stack', index', order, n) {
      assert Placed(exprs, needed, state, stack, stackIndex, order, n);
    }
  }

  lemma Leave(g: Graph, exprs: set<string>, needed: iset<string>, state: map<string, Color>,
              stack: seq<string>, stackIndex: map<string, nat>, order: seq<string>, name: string)
    requires SortState(g, exprs, needed, state, stack + [name], stackIndex, order)
    requires AllListed(Dependencies(g, name), |Dependencies(g, name)|, order)
    ensures SortState(g, exprs, needed, state[name := Visited], stack, stackIndex - {name}, order + [name])
  {
    ElementsAppend(stack, name);
    StackPrefix(g, stack, name);
    assert Placed(exprs, needed, state, stack + [name], stackIndex, order, name);
    var state', index', order' := state[name := Visited], stackIndex - {name}, order + [name];
    forall n ensures Placed(exprs, needed, state', stack, index', order', n) {
      assert Placed(exprs, needed, state, stack + [name], stackIndex, order, n);
    }
    ListLast(g, order, name);
  }

  ghost predicate AllListed(names: seq<string>, k: nat, order: seq<string>)
    requires k <= |names|
  {
    forall j :: 0 <= j < k ==> names[j] in order
  }

  lemma OneMoreListed(names: seq<string>, k: nat, before: seq<string>, order: seq<string>)
    requires k < |names| && AllListed(names, k, before) && Keeps(before, order) && names[k] in order
    ensures AllListed(names, k + 1, order)
  {
  }

  /** A name the sources need, and the innermost open name needs it directly. */
  ghost predicate Needed(g: Graph, needed: iset<string>, stack: seq<string>, name: string) {
    name in needed && (stack != [] ==> Edge(g, stack[|stack| - 1], name))
  }

  /** What a needed name depends on is needed. */
  ghost predicate ClosedNeeds(g: Graph, needed: iset<string>) {
    forall a, b {:trigger Edge(g, a, b)} :: a in needed && Edge(g, a, b) ==> b in needed
  }

  lemma DependencyNeeded(g: Graph, needed: iset<string>, stack: seq<string>, i: nat)
    requires ClosedNeeds(g, needed) && stack != [] && stack[|stack| - 1] in needed
    requires i < |Dependencies(g, stack[|stack| - 1])|
    ensures Edge(g, stack[|stack| - 1], Dependencies(g, stack[|stack| - 1])[i])
    ensures Needed(g, needed, stack, Dependencies(g, stack[|stack| - 1])[i])
  {
    assert Edge(g, stack[|stack| - 1], Dependencies(g, stack[|stack| - 1])[i]);
  }

  lemma StackPrefix(g: Graph, stack: seq<string>, name: string)
    requires IsWalk(g, stack + [name])
    ensures stack != [] ==> IsWalk(g, stack)
  {
    var whole := stack + [name];
    forall i | 0 <= i < |stack| - 1 ensures Edge(g, stack[i], stack[i + 1]) {
      assert Edge(g, whole[i], whole[i + 1]);
    }
  }

  lemma ListLast(g: Graph, order: seq<string>, name: string)
    requires DependenciesFirst(g, order) && AllListed(Dependencies(g, name), |Dependencies(g, name)|, order)
    ensures DependenciesFirst(g, order + [name])
  {
    var listed := order + [name];
    forall i, d | 0 <= i < |listed| && Edge(g, listed[i], d) ensures d in listed[..i] {
      assert listed[..i] == order[..i];
      if i == |order| {
        assert order[..i] == order;
      }
    }
  }

  /** Meeting a name that is still being visited: the stack from that name on, closed by it, is a cycle. */
  lemma StackCycle(g: Graph, stack: seq<string>, start: nat, name: string)
    requires start < |stack| && stack[start] == name && IsWalk(g, stack)
    requires Edge(g, stack[|stack| - 1], name)
    ensures IsCycle(g, stack[start..] + [name])
  {
    var q := stack + [name];
    assert IsWalk(g, q);
    RevisitCyclic(g, q, start, |stack|);
    assert q[start..|stack| + 1] == stack[start..] + [name];
  }

  /** An error is backed by evidence: a closed walk of dependencies, or a reference to an undefined local. */
  ghost predicate Explains(g: Graph, exprs: set<string>, needed: iset<string>, error: OrderError) {
    match error
    case CyclicDependency(cycle) => IsCycle(g, cycle) && cycle[0] in needed
    case UndefinedDependency(name, usedBy) =>
      name !in exprs && usedBy in needed && Edge(g, usedBy, name)
  }

  lemma CycleFound(g: Graph, exprs: set<string>, needed: iset<string>, state: map<string, Color>,
                   stack: seq<string>, stackIndex: map<string, nat>, order: seq<string>, name: string)
    requires SortState(g, exprs, needed, state, stack, stackIndex, order) && Needed(g, needed, stack, name)
    requires name in state && state[name] == Visiting
    ensures name in stackIndex && stackIndex[name] < |stack|
    ensures Explains(g, exprs, needed, CyclicDependency(stack[stackIndex[name]..] + [name]))
  {
    assert Placed(exprs, needed, state, stack, stackIndex, order, name);
    StackCycle(g, stack, stackIndex[name], name);
  }

  /** The variables that the recursive closure of topoSortLocals captures. */
  class Sorter {
    const g: Graph
    const exprs: set<string>
    ghost const needed: iset<string>
    var state: map<string, Color>
    var stack: seq<string>
    var stackIndex: map<string, nat>
    var order: seq<string>

    ghost predicate Valid()
      reads this
    {
      SortState(g, exprs, needed, state, stack, stackIndex, order) && ClosedNeeds(g, needed)
    }

    constructor (g: Graph, exprs: set<string>, ghost needed: iset<string>)
      requires ClosedNeeds(g, needed)
      ensures Valid() && stack == [] && order == []
      ensures this.g == g && this.exprs == exprs && this.needed == needed
    {
      this.g, this.exprs, this.needed := g, exprs, needed;
      state, stack, stackIndex, order := map[], [], map[], [];
    }

    method Push(name: string)
      requires Valid() && name in exprs && name !in state && Needed(g, needed, stack, name)
      modifies this
      ensures Valid() && stack == old(stack) + [name] && order == old(order)
      ensures state.Keys == old(state.Keys) + {name}
    {
      Enter(g, exprs, needed, state, stack, stackIndex, order, name);
      state := state[name := Visiting];
      stackIndex := stackIndex[name := |stack|];
      stack := stack + [name];
    }

    method Pop(name: string)
      requires Valid() && stack != [] && stack[|stack| - 1] == name
      requires AllListed(Dependencies(g, name), |Dependencies(g, name)|, order)
      modifies this
      ensures Valid() && stack == old(stack)[..|old(stack)| - 1] && order == old(order) + [name]
      ensures state.Keys == old(state.Keys)
    {
      assert stack == stack[..|stack| - 1] + [name];
      assert Placed(exprs, needed, state, stack, stackIndex, order, name);
      Leave(g, exprs, needed, state, stack[..|stack| - 1], stackIndex, order, name);
      stack := stack[..|stack| - 1];
      stackIndex := stackIndex - {name};
      state := state[name := Visited];
      order := order + [name];
    }

    method Visit(name: string) returns (error: Option<OrderError>)
      requires Valid() && name in exprs && Needed(g, needed, stack, name)
      modifies this
      decreases exprs - state.Keys
      ensures error.None? ==> Valid() && stack == old(stack) && name in order
      ensures error.None? ==> old(state.Keys) <= state.Keys
      ensures error.None? ==> order == PostOrder(g, exprs, old(order), Elements(old(stack)), name)
      ensures error.Some? ==> Explains(g, exprs, needed, error.value)
    {
      assert Placed(exprs, needed, state, stack, stackIndex, order, name);
      if name in state {
        match state[name] {
          case Visiting =>
            var start := stackIndex[name];
            var cycle := stack[start..] + [name];
            CycleFound(g, exprs, needed, state, stack, stackIndex, order, name);
            return Some(CyclicDependency(cycle));
          case Visited =>
            return None;
        }
      }
      Push(name);
      ElementsAppend(old(stack), name);
      var deps := Dependencies(g, name);
      for i := 0 to |deps|
        invariant Valid() && stack == old(stack) + [name] && old(state.Keys) + {name} <= state.Keys
        invariant AllListed(deps, i, order)
        invariant order == PostOrderAll(g, exprs, old(order), Elements(stack), deps, i)
      {
        var dep := deps[i];
        DependencyNeeded(g, needed, stack, i);
        if dep !in exprs {
          return Some(UndefinedDependency(dep, name));
        }
        ghost var before := order;
        error := Visit(dep);
        if error.Some? {
          return;
        }
        VisitKept(g, exprs, before, Elements(stack), dep);
        OneMoreListed(deps, i, before, order);
      }
      Pop(name);
      return None;
    }
  }

  /** Nothing the sources need is undefined or cyclic. */
  ghost predicate Orderable(g: Graph, exprs: set<string>, sources: seq<string>) {
    forall n :: FromSources(g, sources, n) ==> n in exprs && !OnCycle(g, n)
  }

  /** The sources and all they depend on. */
  ghost function NeededNames(g: Graph, sources: seq<string>): iset<string> {
    iset n | FromSources(g, sources, n)
  }

  lemma NeededNamesClosed(g: Graph, sources: seq<string>)
    ensures ClosedNeeds(g, NeededNames(g, sources))
    ensures forall n :: n in sources ==> n in NeededNames(g, sources)
  {
    var needed := NeededNames(g, sources);
    forall a, b | a in needed && Edge(g, a, b) ensures b in needed {
      SourceStep(g, sources, a, b);
    }
    forall n | n in sources ensures n in needed {
      SourceItself(g, sources, n);
    }
  }

  lemma ErrorMeansNotOrderable(g: Graph, exprs: set<string>, sources: seq<string>, error: OrderError)
    requires Explains(g, exprs, NeededNames(g, sources), error)
    ensures !Orderable(g, exprs, sources)
  {
    match error
    case CyclicDependency(cycle) => assert OnCycle(g, cycle[0]);
    case UndefinedDependency(name, usedBy) => SourceStep(g, sources, usedBy, name);
  }

  lemma ListedMeansReachable(g: Graph, sources: seq<string>, order: seq<string>, n: string)
    requires DependenciesFirst(g, order) && forall r :: r in sources ==> r in Elements(order)
    requires FromSources(g, sources, n)
    ensures n in Elements(order)
  {
    var r :| r in sources && Reaches(g, r, n);
    var p :| WalkBetween(g, r, n, p);
    forall a, b | a in Elements(order) && Edge(g, a, b) ensures b in Elements(order) {
      var i :| 0 <= i < |order| && order[i] == a;
      assert b in order[..i];
    }
    ClosedContainsReachable(g, Elements(order), p);
    assert p[|p| - 1] in p;
  }

  lemma ListedMeansOrderable(g: Graph, exprs: set<string>, sources: seq<string>, order: seq<string>)
    requires DependenciesFirst(g, order) && NoDuplicates(order)
    requires forall n :: n in order ==> n in exprs
    requires forall r :: r in sources ==> r in Elements(order)
    ensures Orderable(g, exprs, sources)
  {
    forall n | FromSources(g, sources, n) ensures n in exprs && !OnCycle(g, n) {
      ListedMeansReachable(g, sources, order, n);
      forall p | IsCycle(g, p) ensures p[0] != n {
        if p[0] in order {
          ListedNotRevisited(g, order, p);
        }
      }
    }
  }

  // What the order function lists.

  ghost predicate AllClean(g: Graph, exprs: set<string>, needed: iset<string>) {
    ClosedNeeds(g, needed) && forall n :: n in needed ==> n in exprs && !OnCycle(g, n)
  }

  ghost predicate AllDependOn(g: Graph, open: set<string>, name: string) {
    forall o :: o in open ==> Depends(g, o, name)
  }

  lemma OpenDependOnNext(g: Graph, open: set<string>, name: string, d: string)
    requires AllDependOn(g, open, name) && Edge(g, name, d)
    ensures AllDependOn(g, open + {name}, d)
  {
    assert WalkBetween(g, name, d, [name, d]);
    forall o | o in open ensures Depends(g, o, d) {
      var p :| |p| >= 2 && WalkBetween(g, o, name, p);
      assert WalkBetween(g, o, d, p + [d]);
    }
  }

  lemma SelfDependenceIsCycle(g: Graph, name: string)
    ensures Depends(g, name, name) ==> OnCycle(g, name)
  {
    if Depends(g, name, name) {
      var p :| |p| >= 2 && WalkBetween(g, name, name, p);
      assert IsCycle(g, p);
    }
  }

  lemma OpenNotMetAgain(g: Graph, exprs: set<string>, needed: iset<string>, open: set<string>, name: string)
    requires AllClean(g, exprs, needed) && name in needed && AllDependOn(g, open, name)
    ensures name !in open
  {
    SelfDependenceIsCycle(g, name);
  }

  /** What a listing keeps: no repetitions, dependencies first, nothing open, only what is needed. */
  ghost predicate Listing(g: Graph, needed: iset<string>, order: seq<string>, open: set<string>) {
    && NoDuplicates(order) && DependenciesFirst(g, order)
    && forall n :: n in order ==> n !in open && n in needed
  }

  lemma {:induction false} VisitSorted(g: Graph, exprs: set<string>, needed: iset<string>, order: seq<string>,
                                       open: set<string>, name: string)
    requires AllClean(g, exprs, needed) && Listing(g, needed, order, open)
    requires name in needed && AllDependOn(g, open, name)
    ensures Listing(g, needed, PostOrder(g, exprs, order, open, name), open)
    ensures name in PostOrder(g, exprs, order, open, name)
    decreases exprs - open, 0, 0
  {
    OpenNotMetAgain(g, exprs, needed, open, name);
    if name !in order {
      var deps := Dependencies(g, name);
      forall i | 0 <= i < |deps| ensures deps[i] in needed && AllDependOn(g, open + {name}, deps[i]) {
        assert Edge(g, name, deps[i]);
        OpenDependOnNext(g, open, name, deps[i]);
      }
      AllSorted(g, exprs, needed, order, open + {name}, deps, |deps|);
      ListLast(g, PostOrderAll(g, exprs, order, open + {name}, deps, |deps|), name);
    }
  }

  lemma {:induction false} AllSorted(g: Graph, exprs: set<string>, needed: iset<string>, order: seq<string>,
                                     open: set<string>, names: seq<string>, k: nat)
    requires AllClean(g, exprs, needed) && Listing(g, needed, order, open) && k <= |names|
    requires forall i :: 0 <= i < |names| ==> names[i] in needed && AllDependOn(g, open, names[i])
    ensures Listing(g, needed, PostOrderAll(g, exprs, order, open, names, k), open)
    ensures AllListed(names, k, PostOrderAll(g, exprs, order, open, names, k))
    decreases exprs - open, 1, k
  {
    if k > 0 {
      AllSorted(g, exprs, needed, order, open, names, k - 1);
      var before := PostOrderAll(g, exprs, order, open, names, k - 1);
      VisitSorted(g, exprs, needed, before, open, names[k - 1]);
      VisitKept(g, exprs, before, open, names[k - 1]);
      OneMoreListed(names, k - 1, before, PostOrderAll(g, exprs, order, open, names, k));
    }
  }

  /** When everything needed can be ordered, the order lists exactly that, each name once, dependencies first. */
  lemma SortedFromIsSorted(g: Graph, exprs: set<string>, sources: seq<string>)
    requires Orderable(g, exprs, sources)
    ensures NoDuplicates(SortedFrom(g, exprs, sources)) && DependenciesFirst(g, SortedFrom(g, exprs, sources))
    ensures forall n :: n in SortedFrom(g, exprs, sources) <==> FromSources(g, sources, n)
  {
    var needed, order := NeededNames(g, sources), SortedFrom(g, exprs, sources);
    NeededNamesClosed(g, sources);
    AllSorted(g, exprs, needed, [], {}, sources, |sources|);
    forall n | FromSources(g, sources, n) ensures n in order {
      ListedMeansReachable(g, sources, order, n);
    }
  }

  /** Sorting succeeds exactly when nothing needed is undefined or on a cycle, and then lists exactly what is needed,
      each name once and after everything it references. */
  method TopoSortLocals(sourceOrder: seq<string>, exprs: set<string>, deps: Graph)
    returns (r: Result<seq<string>, OrderError>)
    requires forall n :: n in sourceOrder ==> n in exprs
    ensures r.Ok? <==> Orderable(deps, exprs, sourceOrder)
    ensures r.Ok? ==> NoDuplicates(r.value) && DependenciesFirst(deps, r.value)
    ensures r.Ok? ==> forall n :: n in r.value <==> FromSources(deps, sourceOrder, n)
    ensures r.Ok? ==> r.value == SortedFrom(deps, exprs, sourceOrder)
    ensures r.Err? ==> Explains(deps, exprs, NeededNames(deps, sourceOrder), r.error)
  {
    ghost var needed := NeededNames(deps, sourceOrder);
    NeededNamesClosed(deps, sourceOrder);
    var sorter := new Sorter(deps, exprs, needed);
    for i := 0 to |sourceOrder|
      invariant sorter.g == deps && sorter.exprs == exprs && sorter.needed == needed
      invariant sorter.Valid() && sorter.stack == []
      invariant sorter.order == PostOrderAll(deps, exprs, [], {}, sourceOrder, i)
      invariant AllListed(sourceOrder, i, sorter.order)
    {
      assert sourceOrder[i] in sourceOrder;
      EmptyElements(sorter.stack);
      ghost var before := sorter.order;
      var error := sorter.Visit(sourceOrder[i]);
      if error.Some? {
        ErrorMeansNotOrderable(deps, exprs, sourceOrder, error.value);
        return Err(error.value);
      }
      VisitKept(deps, exprs, before, {}, sourceOrder[i]);
      OneMoreListed(sourceOrder, i, before, sorter.order);
    }
    var order := sorter.order;
    forall n | n in order ensures n in exprs && FromSources(deps, sourceOrder, n) {
      assert Placed(exprs, needed, sorter.state, sorter.stack, sorter.stackIndex, order, n);
    }
    ListedMeansOrderable(deps, exprs, sourceOrder, order);
    forall n | FromSources(deps, sourceOrder, n) ensures n in order {
      ListedMeansReachable(deps, sourceOrder, order, n);
    }
    return Ok(order);
  }
}
