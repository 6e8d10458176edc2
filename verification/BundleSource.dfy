/** The parsed structure of a bundle file and the extraction of its locals, internal/bundle/expressions.go. */
module BundleSource {
  import opened Wrappers
  import opened Sequences
  import opened Ordering
  import opened Walks
  import opened LocalOrder
  import opened Expressions
  import opened LocalEvaluation

  /** An attribute with the byte range of its expression. */
  datatype Attribute = Attribute(name: string, expr: Expr, start: nat, end: nat)

  datatype Body = Body(attributes: seq<Attribute>, blocks: seq<Block>)

  datatype Block = Block(kind: string, body: Body)

  datatype LocalsError =
    | NestedBlock
    | DuplicateLocal(name: string)
    | Unorderable(error: OrderError)
    | Unevaluable(name: string)

  /** Every attribute of a body, at any depth. */
  function AllAttributes(body: Body): seq<Attribute>
    decreases body, 0
  {
    body.attributes + BlockAttributes(body.blocks)
  }

  function BlockAttributes(blocks: seq<Block>): seq<Attribute>
    decreases blocks
  {
    if blocks == [] then []
    else BlockAttributes(blocks[..|blocks| - 1]) + AllAttributes(blocks[|blocks| - 1].body)
  }

  predicate IsLocals(block: Block) {
    block.kind == "locals"
  }

  /** The attributes of the locals blocks among blocks. */
  function LocalAttributes(blocks: seq<Block>): seq<Attribute> {
    if blocks == [] then []
    else
      var last := blocks[|blocks| - 1];
      LocalAttributes(blocks[..|blocks| - 1]) + if IsLocals(last) then last.body.attributes else []
  }

  lemma {:induction false} LocalsAreAttributes(blocks: seq<Block>)
    ensures forall a :: a in LocalAttributes(blocks) ==> a in BlockAttributes(blocks)
  {
    if blocks != [] {
      LocalsAreAttributes(blocks[..|blocks| - 1]);
    }
  }

  /** A locals block holds attributes only. */
  ghost predicate Flat(block: Block) {
    IsLocals(block) ==> block.body.blocks == []
  }

  ghost predicate FlatUpTo(blocks: seq<Block>, k: nat)
    requires k <= |blocks|
  {
    forall i :: 0 <= i < k ==> Flat(blocks[i])
  }

  ghost predicate NoNesting(blocks: seq<Block>) {
    FlatUpTo(blocks, |blocks|)
  }

  lemma FlatSnoc(blocks: seq<Block>, i: nat)
    requires i < |blocks|
    ensures FlatUpTo(blocks, i + 1) <==> FlatUpTo(blocks, i) && Flat(blocks[i])
    ensures !Flat(blocks[i]) ==> !NoNesting(blocks)
  {
  }

  ghost predicate DistinctNames(attributes: seq<Attribute>) {
    forall i, j :: 0 <= i < j < |attributes| ==> attributes[i].name != attributes[j].name
  }

  /** The expressions of the locals by name. */
  function DefinitionsOf(attributes: seq<Attribute>): Definitions {
    if attributes == [] then map[]
    else
      var init, last := attributes[..|attributes| - 1], attributes[|attributes| - 1];
      DefinitionsOf(init)[last.name := last.expr]
  }

  lemma {:induction false} DefinitionsByName(attributes: seq<Attribute>)
    requires DistinctNames(attributes)
    ensures forall a :: a in attributes ==>
              a.name in DefinitionsOf(attributes) && DefinitionsOf(attributes)[a.name] == a.expr
    ensures forall n :: n in DefinitionsOf(attributes) ==> exists a :: a in attributes && a.name == n
  {
    if attributes != [] {
      var init, last := attributes[..|attributes| - 1], attributes[|attributes| - 1];
      assert attributes == init + [last];
      DefinitionsByName(init);
      forall n | n in DefinitionsOf(attributes) ensures exists a :: a in attributes && a.name == n {
        if n == last.name {
          assert last in attributes;
        } else {
          assert n in DefinitionsOf(init);
          var a :| a in init && a.name == n;
          assert a in attributes;
        }
      }
      forall a | a in attributes ensures DefinitionsOf(attributes)[a.name] == a.expr {
        var i :| 0 <= i < |attributes| && attributes[i] == a;
        if i < |init| {
          assert init[i] == a;
        }
      }
    }
  }

  /** Every definition's named references. */
  function ReferenceGraph(defs: Definitions): Graph {
    map n | n in defs :: DependencyNames(defs[n])
  }

  lemma ReferenceEdges(defs: Definitions, a: string, b: string)
    ensures Edge(ReferenceGraph(defs), a, b) <==> a in defs && Mentions(defs[a], b)
  {
    if a in defs {
      FirstUsesMembers(References(defs[a]));
    }
  }

  /** No local references an undefined name or, over any number of steps, itself. */
  ghost predicate LocalsOrderable(defs: Definitions) {
    forall n :: n in defs ==>
      !OnCycle(ReferenceGraph(defs), n) && forall d :: Mentions(defs[n], d) ==> d in defs
  }

  lemma OrderableFromAll(defs: Definitions, sources: seq<string>)
    requires Elements(sources) == defs.Keys
    ensures Orderable(ReferenceGraph(defs), defs.Keys, sources) <==> LocalsOrderable(defs)
  {
    var g := ReferenceGraph(defs);
    if LocalsOrderable(defs) {
      forall n | FromSources(g, sources, n) ensures n in defs && !OnCycle(g, n) {
        var r :| r in sources && Reaches(g, r, n);
        var p :| WalkBetween(g, r, n, p);
        assert r in Elements(sources);
        forall a, b | a in defs.Keys && Edge(g, a, b) ensures b in defs.Keys {
          ReferenceEdges(defs, a, b);
        }
        ClosedContainsReachable(g, defs.Keys, p);
        assert p[|p| - 1] in p;
      }
    }
    if Orderable(g, defs.Keys, sources) {
      forall n, d | n in defs ensures !OnCycle(g, n) && (Mentions(defs[n], d) ==> d in defs) {
        assert n in Elements(sources);
        SourceItself(g, sources, n);
        ReferenceEdges(defs, n, d);
        if Edge(g, n, d) {
          SourceStep(g, sources, n, d);
        }
      }
    }
  }

  lemma SortedIsEvaluationOrder(defs: Definitions, sources: seq<string>, order: seq<string>)
    requires Elements(sources) == defs.Keys
    requires NoDuplicates(order) && DependenciesFirst(ReferenceGraph(defs), order)
    requires forall n :: n in order <==> FromSources(ReferenceGraph(defs), sources, n)
    requires Orderable(ReferenceGraph(defs), defs.Keys, sources)
    ensures EvaluationOrder(defs, order)
  {
    var g := ReferenceGraph(defs);
    forall n ensures n in order <==> n in defs {
      if n in defs {
        assert n in Elements(sources);
        SourceItself(g, sources, n);
      }
    }
    forall i | 0 <= i < |order| ensures MentionsEarlier(defs, order, i) {
      assert order[i] in order;
      forall d | Mentions(defs[order[i]], d) ensures d in order[..i] {
        ReferenceEdges(defs, order[i], d);
      }
    }
  }

  // Reading the locals blocks.

  predicate ByPosition(a: Attribute, b: Attribute) {
    a.start < b.start || (a.start == b.start && Below(a.name, b.name))
  }

  /** The local attributes as they are processed: block by block, each block by source position. */
  function InSourceOrder(blocks: seq<Block>): seq<Attribute> {
    if blocks == [] then []
    else
      InSourceOrder(blocks[..|blocks| - 1]) + BlockOrder(blocks[|blocks| - 1])
  }

  function BlockOrder(block: Block): seq<Attribute> {
    if IsLocals(block) then Sort(ByPosition, block.body.attributes) else []
  }

  lemma ByPositionIsPartialOrder(xs: set<Attribute>)
    ensures PartialOrderOn(ByPosition, xs)
  {
    forall a { BelowIrreflexive(a); }
    forall a, b, c | Below(a, b) && Below(b, c) ensures Below(a, c) { BelowTransitive(a, b, c); }
  }

  /** The locals of one block are processed by ascending position, and by name where positions are equal; blocks of any
      other type are passed over. */
  lemma BlockOrderMeaning(block: Block)
    ensures block.kind != "locals" ==> BlockOrder(block) == []
    ensures block.kind == "locals" ==>
              && multiset(BlockOrder(block)) == multiset(block.body.attributes)
              && forall i, j :: 0 <= i < j < |BlockOrder(block)| ==>
                   var a, b := BlockOrder(block)[i], BlockOrder(block)[j];
                   a.start < b.start || (a.start == b.start && !Below(b.name, a.name))
  {
    if IsLocals(block) {
      var attributes := block.body.attributes;
      ByPositionIsPartialOrder(Elements(attributes));
      SortOrdered(ByPosition, attributes);
      SortElements(ByPosition, attributes);
    }
  }

  lemma OneBlock(block: Block)
    requires IsLocals(block)
    ensures LocalAttributes([block]) == block.body.attributes && InSourceOrder([block]) == BlockOrder(block)
    ensures BlockAttributes([block]) == AllAttributes(block.body)
  {
    assert [block][..0] == [];
  }

  lemma SortedBlock(block: Block)
    requires IsLocals(block) && StrictlySorted(ByPosition, block.body.attributes)
    ensures InSourceOrder([block]) == block.body.attributes
  {
    OneBlock(block);
    SortKeepsSorted(ByPosition, block.body.attributes);
  }

  datatype Collected = Collected(
    exprs: Definitions, positions: map<string, nat>, deps: Graph, sourceOrder: seq<string>)

  ghost predicate SameNames(names: seq<string>, done: seq<Attribute>) {
    |names| == |done| && forall i :: 0 <= i < |done| ==> names[i] == done[i].name
  }

  ghost predicate Positions(positions: map<string, nat>, done: seq<Attribute>) {
    forall i :: 0 <= i < |done| ==> done[i].name in positions && positions[done[i].name] == done[i].start
  }

  ghost predicate NamesRecorded(names: seq<string>, keys: set<string>, done: seq<Attribute>) {
    SameNames(names, done) && NoDuplicates(names) && Elements(names) == keys
  }

  /** What has been recorded about the attributes processed so far. */
  ghost predicate Records(c: Collected, done: seq<Attribute>) {
    && NamesRecorded(c.sourceOrder, c.exprs.Keys, done)
    && c.exprs == DefinitionsOf(done) && c.deps == ReferenceGraph(c.exprs)
    && c.positions.Keys == c.exprs.Keys && Positions(c.positions, done)
  }

  function RecordAttribute(c: Collected, a: Attribute): Collected {
    Collected(c.exprs[a.name := a.expr], c.positions[a.name := a.start],
              c.deps[a.name := DependencyNames(a.expr)], c.sourceOrder + [a.name])
  }

  lemma RecordPosition(c: Collected, done: seq<Attribute>, a: Attribute)
    requires Records(c, done) && a.name !in c.exprs
    ensures Positions(c.positions[a.name := a.start], done + [a])
  {
    forall i | 0 <= i < |done| ensures done[i].name != a.name {
      assert c.sourceOrder[i] in Elements(c.sourceOrder);
    }
  }

  lemma RecordName(names: seq<string>, keys: set<string>, done: seq<Attribute>, a: Attribute)
    requires NamesRecorded(names, keys, done) && a.name !in keys
    ensures NamesRecorded(names + [a.name], keys + {a.name}, done + [a])
  {
    assert a.name !in Elements(names);
    assert Elements(names + [a.name]) == Elements(names) + {a.name};
  }

  lemma RecordMaps(exprs: Definitions, done: seq<Attribute>, a: Attribute)
    requires exprs == DefinitionsOf(done)
    ensures exprs[a.name := a.expr] == DefinitionsOf(done + [a])
    ensures ReferenceGraph(exprs)[a.name := DependencyNames(a.expr)] == ReferenceGraph(exprs[a.name := a.expr])
  {
    assert (done + [a])[..|done|] == done;
  }

  lemma RecordOne(c: Collected, done: seq<Attribute>, a: Attribute)
    requires Records(c, done) && a.name !in c.exprs
    ensures Records(RecordAttribute(c, a), done + [a])
  {
    RecordPosition(c, done, a);
    RecordName(c.sourceOrder, c.exprs.Keys, done, a);
    RecordMaps(c.exprs, done, a);
    assert c.exprs[a.name := a.expr].Keys == c.exprs.Keys + {a.name};
  }

  lemma RecordsDistinct(c: Collected, done: seq<Attribute>)
    requires Records(c, done)
    ensures DistinctNames(done)
  {
    assert forall i :: 0 <= i < |done| ==> c.sourceOrder[i] == done[i].name;
  }

  lemma DuplicateFound(c: Collected, now: seq<Attribute>, attr: Attribute, all: seq<Attribute>)
    requires Records(c, now) && attr.name in c.exprs
    requires |now| < |all| && now == all[..|now|] && all[|now|] == attr
    ensures !DistinctNames(all)
  {
    assert attr.name in Elements(c.sourceOrder);
    var i :| 0 <= i < |c.sourceOrder| && c.sourceOrder[i] == attr.name;
    assert all[i].name == now[i].name == all[|now|].name;
  }

  /** The first i attributes of a list are recorded on top of those done before. */
  ghost predicate Collecting(c: Collected, done: seq<Attribute>, attributes: seq<Attribute>, i: nat)
    requires i <= |attributes|
  {
    Records(c, done + attributes[..i])
  }

  lemma CollectNone(c: Collected, done: seq<Attribute>, attributes: seq<Attribute>)
    requires Records(c, done)
    ensures Collecting(c, done, attributes, 0)
  {
    assert done + attributes[..0] == done;
  }

  lemma CollectNext(c: Collected, done: seq<Attribute>, attributes: seq<Attribute>, i: nat)
    requires i < |attributes| && Collecting(c, done, attributes, i)
    ensures attributes[i].name !in c.exprs ==> Collecting(RecordAttribute(c, attributes[i]), done, attributes, i + 1)
    ensures attributes[i].name in c.exprs ==> !DistinctNames(done + attributes)
  {
    if attributes[i].name in c.exprs {
      DuplicateFound(c, done + attributes[..i], attributes[i], done + attributes);
    } else {
      RecordOne(c, done + attributes[..i], attributes[i]);
      TakeSnoc(done, attributes, i);
    }
  }

  lemma CollectAll(c: Collected, done: seq<Attribute>, attributes: seq<Attribute>)
    requires Collecting(c, done, attributes, |attributes|)
    ensures Records(c, done + attributes) && DistinctNames(done + attributes)
  {
    assert attributes[..|attributes|] == attributes;
    RecordsDistinct(c, done + attributes);
  }

  /** Records the attributes of one list in turn; fails exactly when a name is already taken. */
  method CollectAttributes(attributes: seq<Attribute>, before: Collected, ghost done: seq<Attribute>)
    returns (r: Result<Collected, LocalsError>)
    requires Records(before, done)
    ensures r.Ok? <==> DistinctNames(done + attributes)
    ensures r.Ok? ==> Records(r.value, done + attributes)
    ensures r.Err? ==> r.error.DuplicateLocal?
  {
    var c := before;
    CollectNone(c, done, attributes);
    for i := 0 to |attributes|
      invariant Collecting(c, done, attributes, i)
    {
      var attr := attributes[i];
      CollectNext(c, done, attributes, i);
      if attr.name in c.exprs {
        return Err(DuplicateLocal(attr.name));
      }
      var deps := LocalDependencies(attr.expr);
      c := Collected(c.exprs[attr.name := attr.expr], c.positions[attr.name := attr.start],
                     c.deps[attr.name := deps], c.sourceOrder + [attr.name]);
    }
    CollectAll(c, done, attributes);
    return Ok(c);
  }

  method CollectBlock(block: Block, before: Collected, ghost done: seq<Attribute>)
    returns (r: Result<Collected, LocalsError>)
    requires Records(before, done)
    ensures r.Ok? <==> Flat(block) && DistinctNames(done + BlockOrder(block))
    ensures r.Ok? ==> Records(r.value, done + BlockOrder(block))
    ensures r.Err? ==> r.error.NestedBlock? || r.error.DuplicateLocal?
  {
    if !IsLocals(block) {
      RecordsDistinct(before, done);
      assert done + [] == done;
      return Ok(before);
    }
    if |block.body.blocks| > 0 {
      return Err(NestedBlock);
    }
    r := CollectAttributes(Sort(ByPosition, block.body.attributes), before, done);
  }

  method CollectLocals(blocks: seq<Block>) returns (r: Result<Collected, LocalsError>)
    ensures r.Ok? <==> NoNesting(blocks) && DistinctNames(InSourceOrder(blocks))
    ensures r.Ok? ==> Records(r.value, InSourceOrder(blocks))
    ensures r.Err? ==> r.error.NestedBlock? || r.error.DuplicateLocal?
  {
    var c := Collected(map[], map[], map[], []);
    ghost var done: seq<Attribute> := [];
    for i := 0 to |blocks|
      invariant done == InSourceOrder(blocks[..i]) && Records(c, done)
      invariant FlatUpTo(blocks, i)
    {
      InOrderSnoc(blocks, i);
      PrefixInOrder(blocks, i + 1);
      FlatSnoc(blocks, i);
      var added := CollectBlock(blocks[i], c, done);
      if added.Err? {
        return added;
      }
      c := added.value;
      done := done + BlockOrder(blocks[i]);
    }
    assert blocks[..|blocks|] == blocks;
    RecordsDistinct(c, done);
    return Ok(c);
  }

  lemma InOrderSnoc(blocks: seq<Block>, i: nat)
    requires i < |blocks|
    ensures InSourceOrder(blocks[..i + 1]) == InSourceOrder(blocks[..i]) + BlockOrder(blocks[i])
  {
    assert blocks[..i + 1][..i] == blocks[..i];
  }

  lemma {:induction false} PrefixInOrder(blocks: seq<Block>, k: nat)
    requires k <= |blocks|
    ensures InSourceOrder(blocks[..k]) <= InSourceOrder(blocks)
    ensures DistinctNames(InSourceOrder(blocks)) ==> DistinctNames(InSourceOrder(blocks[..k]))
    decreases |blocks|
  {
    if k == |blocks| {
      assert blocks[..k] == blocks;
    } else {
      var init := blocks[..|blocks| - 1];
      assert init[..k] == blocks[..k];
      PrefixInOrder(init, k);
    }
  }

  // The order of processing does not matter for what is defined.

  lemma {:induction false} SameAttributes(blocks: seq<Block>)
    ensures multiset(InSourceOrder(blocks)) == multiset(LocalAttributes(blocks))
  {
    if blocks != [] {
      SameAttributes(blocks[..|blocks| - 1]);
      SortElements(ByPosition, blocks[|blocks| - 1].body.attributes);
    }
  }

  function NamesOf(attributes: seq<Attribute>): seq<string> {
    seq(|attributes|, i requires 0 <= i < |attributes| => attributes[i].name)
  }

  lemma PermutedDistinct(xs: seq<Attribute>, ys: seq<Attribute>)
    requires multiset(xs) == multiset(ys) && DistinctNames(xs)
    ensures DistinctNames(ys)
  {
    assert |xs| == |multiset(xs)| == |multiset(ys)| == |ys|;
    assert NoDuplicates(NamesOf(xs));
    NoDuplicatesCardinality(NamesOf(xs));
    PermutedNames(xs, ys);
    PermutedNames(ys, xs);
    assert Elements(NamesOf(xs)) == Elements(NamesOf(ys));
    ElementsCardinality(NamesOf(ys));
    forall i, j | 0 <= i < j < |ys| ensures ys[i].name != ys[j].name {
      assert NamesOf(ys)[i] != NamesOf(ys)[j];
    }
  }

  lemma PermutedNames(xs: seq<Attribute>, ys: seq<Attribute>)
    requires multiset(xs) == multiset(ys)
    ensures Elements(NamesOf(xs)) <= Elements(NamesOf(ys))
  {
    forall n | n in NamesOf(xs) ensures n in NamesOf(ys) {
      var i :| 0 <= i < |xs| && NamesOf(xs)[i] == n;
      assert xs[i] in multiset(xs);
      var j :| 0 <= j < |ys| && ys[j] == xs[i];
      assert NamesOf(ys)[j] == n;
    }
  }

  lemma DefinitionsWithin(xs: seq<Attribute>, ys: seq<Attribute>, n: string)
    requires DistinctNames(xs) && DistinctNames(ys) && (forall a :: a in xs ==> a in ys)
    requires n in DefinitionsOf(xs)
    ensures n in DefinitionsOf(ys) && DefinitionsOf(ys)[n] == DefinitionsOf(xs)[n]
  {
    DefinitionsByName(xs);
    DefinitionsByName(ys);
    var a :| a in xs && a.name == n;
    assert a in ys;
  }

  lemma PermutedDefinitions(xs: seq<Attribute>, ys: seq<Attribute>)
    requires multiset(xs) == multiset(ys) && DistinctNames(xs) && DistinctNames(ys)
    ensures DefinitionsOf(xs) == DefinitionsOf(ys)
  {
    assert forall a :: a in xs <==> a in multiset(xs);
    assert forall a :: a in ys <==> a in multiset(ys);
    forall n | n in DefinitionsOf(xs) { DefinitionsWithin(xs, ys, n); }
    forall n | n in DefinitionsOf(ys) { DefinitionsWithin(ys, xs, n); }
  }

  // Evaluation.

  datatype Extracted = Extracted(locals: map<string, Value>, contexts: map<nat, Context>)

  ghost predicate DistinctStarts(attributes: seq<Attribute>) {
    forall a, b :: a in attributes && b in attributes && a.start == b.start ==> a == b
  }

  function LocalsOf(blocks: seq<Block>): Definitions {
    DefinitionsOf(LocalAttributes(blocks))
  }

  /** The order in which the locals are evaluated. */
  function LocalsOrder(blocks: seq<Block>): (order: seq<string>)
    ensures forall n :: n in order ==> n in LocalsOf(blocks)
  {
    var defs := LocalsOf(blocks);
    SortedFrom(ReferenceGraph(defs), defs.Keys, NamesOf(InSourceOrder(blocks)))
  }

  /** The locals blocks hold distinct attributes only, with references that can be ordered. */
  ghost predicate WellFormed(blocks: seq<Block>) {
    NoNesting(blocks) && DistinctNames(LocalAttributes(blocks)) && LocalsOrderable(LocalsOf(blocks))
  }

  /** What evaluating the locals in their order gives. */
  function LocalValues(blocks: seq<Block>, arch: string, files: Option<map<string, string>>)
    : Result<map<string, Value>, string>
  {
    EvaluateInOrder(LocalsOf(blocks), arch, files, LocalsOrder(blocks))
  }

  /** Exactly the locals have a context, under the start position of their expression, and it is their own scope. */
  ghost predicate ContextsAre(attributes: seq<Attribute>, order: seq<string>, arch: string,
                              files: Option<map<string, string>>, e: Extracted) {
    && (forall p :: p in e.contexts <==> exists a :: a in attributes && a.start == p)
    && (forall a :: a in attributes ==>
          a.start in e.contexts && e.contexts[a.start] == OwnScope(order, e.locals, arch, files, a.name))
  }

  /** The locals blocks are well formed, can be ordered, and their equations have a solution. */
  ghost predicate Extractable(blocks: seq<Block>, arch: string, files: Option<map<string, string>>) {
    WellFormed(blocks) && Solvable(LocalsOf(blocks), arch, files)
  }

  ghost predicate Solvable(defs: Definitions, arch: string, files: Option<map<string, string>>) {
    exists sol :: Solves(defs, arch, files, sol)
  }

  ghost predicate Injective(positions: map<string, nat>) {
    forall m, n :: m in positions && n in positions && positions[m] == positions[n] ==> m == n
  }

  /** The context recorded for the j-th local. */
  ghost predicate Records1(defs: Definitions, arch: string, files: Option<map<string, string>>,
                           positions: map<string, nat>, order: seq<string>, contexts: map<nat, Context>, j: nat)
    requires j < |order| && forall n :: n in order ==> n in defs
  {
    && order[j] in positions && positions[order[j]] in contexts
    && EvaluateInOrder(defs, arch, files, order[..j]).Ok?
    && contexts[positions[order[j]]] == Context(EvaluateInOrder(defs, arch, files, order[..j]).value, arch, files)
  }

  /** The contexts recorded for the first i locals, and no others. */
  ghost predicate ContextsUpTo(defs: Definitions, arch: string, files: Option<map<string, string>>,
                               positions: map<string, nat>, order: seq<string>, contexts: map<nat, Context>, i: nat)
    requires i <= |order| && forall n :: n in order ==> n in defs
  {
    && (forall j :: 0 <= j < i ==> Records1(defs, arch, files, positions, order, contexts, j))
    && (forall p :: p in contexts ==> exists j :: 0 <= j < i && order[j] in positions && positions[order[j]] == p)
  }

  lemma OneMoreContext(defs: Definitions, arch: string, files: Option<map<string, string>>, positions: map<string, nat>,
                       order: seq<string>, contexts: map<nat, Context>, i: nat)
    requires i < |order| && (forall n :: n in order ==> n in defs && n in positions) && NoDuplicates(order)
        && Injective(positions)
    requires ContextsUpTo(defs, arch, files, positions, order, contexts, i)
    requires EvaluateInOrder(defs, arch, files, order[..i]).Ok?
    ensures var ctx := Context(EvaluateInOrder(defs, arch, files, order[..i]).value, arch, files);
            ContextsUpTo(defs, arch, files, positions, order, contexts[positions[order[i]] := ctx], i + 1)
  {
    var ctx := Context(EvaluateInOrder(defs, arch, files, order[..i]).value, arch, files);
    var next := contexts[positions[order[i]] := ctx];
    forall j | 0 <= j < i + 1 ensures Records1(defs, arch, files, positions, order, next, j) {
      if j < i {
        assert Records1(defs, arch, files, positions, order, contexts, j);
        assert order[j] in order && order[i] in order;
      }
    }
    forall p | p in next ensures exists j :: 0 <= j < i + 1 && order[j] in positions && positions[order[j]] == p {
      if p == positions[order[i]] {
        assert order[i] in order;
      } else {
        var j :| 0 <= j < i && order[j] in positions && positions[order[j]] == p;
        assert 0 <= j < i + 1;
      }
    }
  }

  lemma EvaluateNext(defs: Definitions, arch: string, files: Option<map<string, string>>, order: seq<string>, i: nat)
    requires NoDuplicates(order) && i < |order| && forall n :: n in order ==> n in defs
    requires EvaluateInOrder(defs, arch, files, order[..i]).Ok?
    ensures order[i] in defs && order[i] !in Elements(order[..i])
    ensures var locals := EvaluateInOrder(defs, arch, files, order[..i]).value;
            EvaluateInOrder(defs, arch, files, order[..i + 1]) ==
            match Eval(defs[order[i]], Context(locals, arch, files))
            case Err(_) => Err(order[i])
            case Ok(v) => Ok(locals[order[i] := v])
  {
    assert order[..i + 1][..i] == order[..i];
  }

  method EvaluateLocals(defs: Definitions, positions: map<string, nat>, order: seq<string>, arch: string,
                        files: Option<map<string, string>>)
    returns (r: Result<Extracted, LocalsError>)
    requires NoDuplicates(order) && Injective(positions)
    requires forall n :: n in order ==> n in defs && n in positions
    ensures r.Ok? <==> EvaluateInOrder(defs, arch, files, order).Ok?
    ensures r.Ok? ==> EvaluateInOrder(defs, arch, files, order) == Ok(r.value.locals)
    ensures r.Ok? ==> ContextsUpTo(defs, arch, files, positions, order, r.value.contexts, |order|)
    ensures r.Err? ==> r.error == Unevaluable(EvaluateInOrder(defs, arch, files, order).error)
  {
    var locals: map<string, Value> := map[];
    var contexts: map<nat, Context> := map[];
    for i := 0 to |order|
      invariant EvaluateInOrder(defs, arch, files, order[..i]) == Ok(locals)
      invariant ContextsUpTo(defs, arch, files, positions, order, contexts, i)
    {
      var name := order[i];
      assert name in order;
      EvaluateNext(defs, arch, files, order, i);
      OneMoreContext(defs, arch, files, positions, order, contexts, i);
      var ctx := Context(locals, arch, files);
      contexts := contexts[positions[name] := ctx];
      var val := Eval(defs[name], ctx);
      if val.Err? {
        EarlierFailure(defs, arch, files, order, i + 1);
        return Err(Unevaluable(name));
      }
      locals := locals[name := val.value];
    }
    assert order[..|order|] == order;
    return Ok(Extracted(locals, contexts));
  }

  lemma {:induction false} EarlierFailure(defs: Definitions, arch: string, files: Option<map<string, string>>,
                                          order: seq<string>, k: nat)
    requires k <= |order| && forall n :: n in order ==> n in defs
    requires EvaluateInOrder(defs, arch, files, order[..k]).Err?
    ensures EvaluateInOrder(defs, arch, files, order) == EvaluateInOrder(defs, arch, files, order[..k])
    decreases |order|
  {
    if k == |order| {
      assert order[..k] == order;
    } else {
      assert order[..|order| - 1][..k] == order[..k];
      EarlierFailure(defs, arch, files, order[..|order| - 1], k);
    }
  }

  lemma PositionsOfAll(c: Collected, sorted: seq<Attribute>, plain: seq<Attribute>)
    requires Records(c, sorted) && multiset(sorted) == multiset(plain)
    ensures forall a :: a in plain ==> a.name in c.positions && c.positions[a.name] == a.start
  {
    forall a | a in plain ensures a.name in c.positions && c.positions[a.name] == a.start {
      assert a in multiset(sorted);
      var i :| 0 <= i < |sorted| && sorted[i] == a;
    }
  }

  lemma PositionsInjective(positions: map<string, nat>, attributes: seq<Attribute>)
    requires DistinctStarts(attributes)
    requires forall a :: a in attributes ==> a.name in positions && positions[a.name] == a.start
    requires forall n :: n in positions ==> exists a :: a in attributes && a.name == n
    ensures Injective(positions)
  {
    forall m, n | m in positions && n in positions && positions[m] == positions[n] ensures m == n {
      var a :| a in attributes && a.name == m;
      var b :| b in attributes && b.name == n;
    }
  }

  lemma NamesAre(names: seq<string>, done: seq<Attribute>)
    requires SameNames(names, done)
    ensures names == NamesOf(done)
  {
  }

  lemma CollectedFacts(c: Collected, blocks: seq<Block>)
    requires Records(c, InSourceOrder(blocks)) && DistinctStarts(LocalAttributes(blocks))
    ensures DistinctNames(LocalAttributes(blocks)) && c.exprs == DefinitionsOf(LocalAttributes(blocks))
    ensures forall a :: a in LocalAttributes(blocks) ==> a.name in c.positions && c.positions[a.name] == a.start
    ensures c.sourceOrder == NamesOf(InSourceOrder(blocks)) && c.deps == ReferenceGraph(c.exprs)
    ensures c.positions.Keys == c.exprs.Keys && Injective(c.positions)
  {
    var sorted, plain := InSourceOrder(blocks), LocalAttributes(blocks);
    SameAttributes(blocks);
    RecordsDistinct(c, sorted);
    PermutedDistinct(sorted, plain);
    PermutedDefinitions(sorted, plain);
    DefinitionsByName(plain);
    NamesAre(c.sourceOrder, sorted);
    PositionsOfAll(c, sorted, plain);
    PositionsInjective(c.positions, plain);
  }

  /** What the caller learns from a successful extraction: values and contexts, down to the last one. */
  ghost predicate ExtractionHolds(blocks: seq<Block>, arch: string, files: Option<map<string, string>>, e: Extracted) {
    && WellFormed(blocks) && EvaluationOrder(LocalsOf(blocks), LocalsOrder(blocks))
    && LocalValues(blocks, arch, files) == Ok(e.locals)
    && ContextsAre(LocalAttributes(blocks), LocalsOrder(blocks), arch, files, e)
  }

  lemma OrderMembers(defs: Definitions, order: seq<string>)
    requires EvaluationOrder(defs, order)
    ensures forall n :: n in order ==> n in defs
  {
    assert forall n :: n in order ==> n in Elements(order);
  }

  /** What sorting all locals by their references means for evaluating them. */
  lemma SortOutcome(defs: Definitions, sources: seq<string>, r: Result<seq<string>, OrderError>)
    requires Elements(sources) == defs.Keys
    requires r.Ok? <==> Orderable(ReferenceGraph(defs), defs.Keys, sources)
    requires r.Ok? ==> NoDuplicates(r.value) && DependenciesFirst(ReferenceGraph(defs), r.value)
                       && forall n :: n in r.value <==> FromSources(ReferenceGraph(defs), sources, n)
    ensures r.Ok? <==> LocalsOrderable(defs)
    ensures r.Ok? ==> EvaluationOrder(defs, r.value) && forall n :: n in r.value ==> n in defs
  {
    OrderableFromAll(defs, sources);
    if r.Ok? {
      SortedIsEvaluationOrder(defs, sources, r.value);
      OrderMembers(defs, r.value);
    }
  }

  lemma SourceNames(blocks: seq<Block>)
    requires DistinctNames(LocalAttributes(blocks))
    ensures Elements(NamesOf(InSourceOrder(blocks))) == LocalsOf(blocks).Keys
  {
    var sorted, plain := InSourceOrder(blocks), LocalAttributes(blocks);
    SameAttributes(blocks);
    PermutedNames(sorted, plain);
    PermutedNames(plain, sorted);
    DefinitionsByName(plain);
    forall n ensures n in NamesOf(plain) <==> n in LocalsOf(blocks) {
      if n in NamesOf(plain) {
        var i :| 0 <= i < |plain| && NamesOf(plain)[i] == n;
        assert plain[i] in plain;
      }
      if n in LocalsOf(blocks) {
        var a :| a in plain && a.name == n;
        var i :| 0 <= i < |plain| && plain[i] == a;
        assert NamesOf(plain)[i] == n;
      }
    }
  }

  /** The order of well-formed locals is an evaluation order. */
  lemma LocalsOrderEvaluates(blocks: seq<Block>)
    requires WellFormed(blocks)
    ensures EvaluationOrder(LocalsOf(blocks), LocalsOrder(blocks))
  {
    var defs, sources := LocalsOf(blocks), NamesOf(InSourceOrder(blocks));
    SourceNames(blocks);
    OrderableFromAll(defs, sources);
    SortedFromIsSorted(ReferenceGraph(defs), defs.Keys, sources);
    SortedIsEvaluationOrder(defs, sources, LocalsOrder(blocks));
  }

  /** Extraction succeeds exactly when the locals are well formed and evaluate in their order, and then yields their
      values and the scope each was evaluated in. */
  method ExtractLocals(blocks: seq<Block>, arch: string, files: Option<map<string, string>>)
    returns (r: Result<Extracted, LocalsError>)
    requires DistinctStarts(LocalAttributes(blocks))
    ensures r.Ok? <==> WellFormed(blocks) && LocalValues(blocks, arch, files).Ok?
    ensures r.Ok? ==> ExtractionHolds(blocks, arch, files, r.value)
  {
    var collected := CollectLocals(blocks);
    if collected.Err? {
      SameAttributes(blocks);
      if DistinctNames(LocalAttributes(blocks)) {
        PermutedDistinct(LocalAttributes(blocks), InSourceOrder(blocks));
      }
      return Err(collected.error);
    }
    CollectedFacts(collected.value, blocks);
    r := OrderAndEvaluate(collected.value, blocks, arch, files);
  }

  method SortLocals(c: Collected, ghost blocks: seq<Block>) returns (r: Result<seq<string>, OrderError>)
    requires DistinctNames(LocalAttributes(blocks)) && c.exprs == LocalsOf(blocks)
    requires c.sourceOrder == NamesOf(InSourceOrder(blocks)) && c.deps == ReferenceGraph(c.exprs)
    ensures r.Ok? <==> LocalsOrderable(c.exprs)
    ensures r.Ok? ==> r.value == LocalsOrder(blocks) && EvaluationOrder(c.exprs, r.value)
  {
    SourceNames(blocks);
    assert forall n :: n in c.sourceOrder ==> n in Elements(c.sourceOrder);
    r := TopoSortLocals(c.sourceOrder, c.exprs.Keys, c.deps);
    SortOutcome(c.exprs, c.sourceOrder, r);
  }

  method OrderAndEvaluate(c: Collected, ghost blocks: seq<Block>, arch: string, files: Option<map<string, string>>)
    returns (r: Result<Extracted, LocalsError>)
    requires NoNesting(blocks) && DistinctNames(LocalAttributes(blocks)) && c.exprs == LocalsOf(blocks)
    requires c.sourceOrder == NamesOf(InSourceOrder(blocks)) && c.deps == ReferenceGraph(c.exprs)
    requires c.positions.Keys == c.exprs.Keys && Injective(c.positions)
    requires forall a :: a in LocalAttributes(blocks) ==> a.name in c.positions && c.positions[a.name] == a.start
    ensures r.Ok? <==> WellFormed(blocks) && LocalValues(blocks, arch, files).Ok?
    ensures r.Ok? ==> ExtractionHolds(blocks, arch, files, r.value)
  {
    var order := SortLocals(c, blocks);
    if order.Err? {
      return Err(Unorderable(order.error));
    }
    r := EvaluateLocals(c.exprs, c.positions, order.value, arch, files);
    if r.Ok? {
      ContextsOfAttributes(blocks, arch, files, c.positions, r.value);
    }
  }

  lemma ContextsOfAttributes(blocks: seq<Block>, arch: string, files: Option<map<string, string>>,
                             positions: map<string, nat>, e: Extracted)
    requires WellFormed(blocks) && EvaluationOrder(LocalsOf(blocks), LocalsOrder(blocks))
    requires LocalValues(blocks, arch, files) == Ok(e.locals)
    requires ContextsUpTo(LocalsOf(blocks), arch, files, positions, LocalsOrder(blocks), e.contexts,
        |LocalsOrder(blocks)|)
    requires forall a :: a in LocalAttributes(blocks) ==> a.name in positions && positions[a.name] == a.start
    ensures ContextsAre(LocalAttributes(blocks), LocalsOrder(blocks), arch, files, e)
  {
    var defs, order, attributes := LocalsOf(blocks), LocalsOrder(blocks), LocalAttributes(blocks);
    DefinitionsByName(attributes);
    forall a | a in attributes
      ensures a.start in e.contexts && e.contexts[a.start] == OwnScope(order, e.locals, arch, files, a.name) {
      assert a.name in Elements(order);
      var j :| 0 <= j < |order| && order[j] == a.name;
      assert Records1(defs, arch, files, positions, order, e.contexts, j);
      PrefixEvaluation(defs, arch, files, order, j);
      BeforeAt(order, j);
    }
    forall p | p in e.contexts ensures exists a :: a in attributes && a.start == p {
      var j :| 0 <= j < |order| && order[j] in positions && positions[order[j]] == p;
      assert order[j] in order;
      var a :| a in attributes && a.name == order[j];
      assert a.start == p;
    }
  }

  /** When locals are referenced by name only, extraction succeeds exactly when the equations have a solution, and the
      values are that solution. */
  lemma ExtractsSolution(blocks: seq<Block>, arch: string, files: Option<map<string, string>>)
    requires WellFormed(blocks) && AllNamedOnly(LocalsOf(blocks))
    ensures LocalValues(blocks, arch, files).Ok? <==> Extractable(blocks, arch, files)
    ensures forall sol :: LocalValues(blocks, arch, files) == Ok(sol) <==> Solves(LocalsOf(blocks), arch, files, sol)
  {
    var defs, order := LocalsOf(blocks), LocalsOrder(blocks);
    LocalsOrderEvaluates(blocks);
    if LocalValues(blocks, arch, files).Ok? {
      EvaluationSolves(defs, arch, files, order);
    }
    forall sol | Solves(defs, arch, files, sol) ensures LocalValues(blocks, arch, files) == Ok(sol) {
      FailureMeansUnsolvable(defs, arch, files, order, |order|, sol);
      assert order[..|order|] == order;
      assert Restrict(sol, Elements(order)) == sol;
    }
  }
}
