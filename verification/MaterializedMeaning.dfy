/** What a materialized bundle file means: the values of its locals and of all its expressions. */
module MaterializedMeaning {
  import opened Wrappers
  import opened Sequences
  import opened Ordering
  import opened Walks
  import opened LocalOrder
  import opened Expressions
  import opened LocalEvaluation
  import opened MaterializedLocals
  import opened BundleSource
  import opened WrittenOrder
  import opened Materialization
  import opened MaterializedText

  // The locals keep their source order.

  ghost predicate SameOrder(w: Rewriting, a: Attribute, b: Attribute) {
    ByPosition(a, b) <==> ByPosition(Rewrite(w, a), Rewrite(w, b))
  }

  ghost predicate OrderKept(w: Rewriting, attributes: seq<Attribute>) {
    forall a, b :: a in attributes && b in attributes ==> SameOrder(w, a, b)
  }

  lemma PlacesKeepOrder(w: Rewriting, body: Body, a: Attribute, b: Attribute)
    requires WellRanged(w.src, body) && EditsMatch(w, AllAttributes(body)) && RendersText(w.render)
    requires AllEvaluate(w, AllAttributes(body)) && a in AllAttributes(body) && b in AllAttributes(body)
    ensures SameOrder(w, a, b)
  {
    if a != b {
      AttributesDisjoint(w.src, body, a, b);
      AttributeInside(w.src, body, a);
      AttributeInside(w.src, body, b);
      PlacesInside(w, body, a);
      PlacesInside(w, body, b);
      if a.end <= b.start {
        PlacesOrdered(w, body, a, b);
      } else {
        PlacesOrdered(w, body, b, a);
      }
    }
  }

  lemma RewriteFirst(w: Rewriting, xs: seq<Attribute>)
    requires xs != []
    ensures RewriteAttributes(xs, w) == [Rewrite(w, xs[0])] + RewriteAttributes(xs[1..], w)
  {
  }

  lemma {:induction false} InsertRewritten(w: Rewriting, x: Attribute, xs: seq<Attribute>)
    requires forall y :: y in xs ==> SameOrder(w, x, y)
    ensures Insert(ByPosition, Rewrite(w, x), RewriteAttributes(xs, w))
         == RewriteAttributes(Insert(ByPosition, x, xs), w)
  {
    if xs != [] {
      assert SameOrder(w, x, xs[0]);
      RewriteFirst(w, xs);
      RewriteFirst(w, [x] + xs);
      RewriteFirst(w, [xs[0]] + Insert(ByPosition, x, xs[1..]));
      InsertRewritten(w, x, xs[1..]);
    }
  }

  lemma {:induction false} SortRewritten(w: Rewriting, xs: seq<Attribute>)
    requires OrderKept(w, xs)
    ensures Sort(ByPosition, RewriteAttributes(xs, w)) == RewriteAttributes(Sort(ByPosition, xs), w)
  {
    if xs != [] {
      var rest := Sort(ByPosition, xs[1..]);
      assert RewriteAttributes(xs, w)[1..] == RewriteAttributes(xs[1..], w);
      SortRewritten(w, xs[1..]);
      SortElements(ByPosition, xs[1..]);
      forall y | y in rest ensures SameOrder(w, xs[0], y) {
        assert y in Elements(rest);
      }
      InsertRewritten(w, xs[0], rest);
    }
  }

  lemma {:induction false} SourceOrderRewritten(w: Rewriting, blocks: seq<Block>)
    requires OrderKept(w, LocalAttributes(blocks))
    ensures InSourceOrder(RewriteBlocks(blocks, w)) == RewriteAttributes(InSourceOrder(blocks), w)
  {
    if blocks != [] {
      var init, last := blocks[..|blocks| - 1], blocks[|blocks| - 1];
      SourceOrderRewritten(w, init);
      RewriteBlocksSplit(blocks, w);
      if IsLocals(last) {
        SortRewritten(w, last.body.attributes);
      }
      RewriteConcat(InSourceOrder(init), BlockOrder(last), w);
    }
  }

  // The locals are the old ones with literals for those that call file().

  /** A local that calls file() is rewritten to its value. */
  ghost predicate Settled(w: Rewriting, values: map<string, Value>, a: Attribute) {
    ContainsFile(a.expr) ==> a.name in values && Rewrite(w, a).expr == Literal(values[a.name])
  }

  lemma {:induction false} DefinitionsRewritten(w: Rewriting, values: map<string, Value>, attributes: seq<Attribute>)
    requires forall a :: a in attributes ==> Settled(w, values, a)
    ensures DefinitionsOf(RewriteAttributes(attributes, w)) == WithLiterals(DefinitionsOf(attributes), values)
  {
    if attributes != [] {
      var init, last := attributes[..|attributes| - 1], attributes[|attributes| - 1];
      DefinitionsRewritten(w, values, init);
      assert RewriteAttributes(attributes, w)[..|init|] == RewriteAttributes(init, w);
      assert Settled(w, values, last);
      LiteralsOneMore(DefinitionsOf(init), values, last.name, last.expr);
    }
  }

  lemma LocalValueFound(blocks: seq<Block>, arch: string, files: map<string, string>, e: Extracted, a: Attribute)
    requires ExtractionHolds(blocks, arch, Some(files), e) && a in LocalAttributes(blocks)
    ensures a.name in e.locals
    ensures Eval(a.expr, OwnScope(LocalsOrder(blocks), e.locals, arch, Some(files), a.name)) == Ok(e.locals[a.name])
  {
    DefinitionsByName(LocalAttributes(blocks));
    LocalHasOwnValue(LocalsOf(blocks), arch, Some(files), LocalsOrder(blocks), a.name);
  }

  lemma LocalSettled(src: string, body: Body, arch: string, files: map<string, string>, render: Value -> string,
                     e: Extracted, a: Attribute)
    requires WellRanged(src, body) && ExtractionHolds(body.blocks, arch, Some(files), e)
        && a in LocalAttributes(body.blocks)
    ensures Settled(RewritingOf(src, body, arch, files, render, e), e.locals, a)
  {
    LocalsAreAttributes(body.blocks);
    ContextFound(src, body, arch, files, e, a);
    LocalValueFound(body.blocks, arch, files, e, a);
  }

  // The locals can still be ordered, and their order is known beforehand.

  /** The references that remain once every local that calls file() is a literal. */
  function RemainingReferences(defs: Definitions): Graph {
    map n | n in defs :: if ContainsFile(defs[n]) then [] else DependencyNames(defs[n])
  }

  /** The order in which the locals of the materialized file are evaluated. */
  function OrderAfter(blocks: seq<Block>): (order: seq<string>)
    ensures forall n :: n in order ==> n in LocalsOf(blocks)
  {
    var defs := LocalsOf(blocks);
    SortedFrom(RemainingReferences(defs), defs.Keys, NamesOf(InSourceOrder(blocks)))
  }

  lemma LiteralReferences(defs: Definitions, values: map<string, Value>)
    requires values.Keys == defs.Keys
    ensures ReferenceGraph(WithLiterals(defs, values)) == RemainingReferences(defs)
  {
    var g := ReferenceGraph(WithLiterals(defs, values));
    forall n | n in defs ensures g[n] == RemainingReferences(defs)[n] {
      if ContainsFile(defs[n]) {
        assert References(WithLiterals(defs, values)[n]) == [];
      }
    }
  }

  lemma LiteralsOrderable(defs: Definitions, values: map<string, Value>)
    requires LocalsOrderable(defs) && values.Keys == defs.Keys
    ensures LocalsOrderable(WithLiterals(defs, values))
  {
    var g, g' := ReferenceGraph(defs), ReferenceGraph(WithLiterals(defs, values));
    forall a, b | Edge(g', a, b) ensures Edge(g, a, b) {
      ReferenceEdges(defs, a, b);
      ReferenceEdges(WithLiterals(defs, values), a, b);
    }
    forall n | n in defs ensures !OnCycle(g', n) {
      forall p | IsCycle(g', p) ensures p[0] != n {
        assert IsCycle(g, p);
        assert OnCycle(g, p[0]);
      }
    }
  }

  /** A check on the source alone: dropping the references of the locals that call file() leaves every local that uses
      all locals at once the same locals before it. */
  ghost predicate ScopesKept(blocks: seq<Block>) {
    SameScopes(LocalsOf(blocks), LocalsOrder(blocks), OrderAfter(blocks))
  }

  lemma RewrittenNamesKept(attributes: seq<Attribute>, w: Rewriting)
    ensures NamesOf(RewriteAttributes(attributes, w)) == NamesOf(attributes)
    ensures DistinctNames(attributes) ==> DistinctNames(RewriteAttributes(attributes, w))
  {
  }

  lemma AttributesKeepOrder(src: string, body: Body, arch: string, files: map<string, string>, render: Value -> string,
                            e: Extracted, out: string)
    requires WellRanged(src, body) && MaterializesTo(src, body, arch, files, render, e, out) && RendersText(render)
    ensures OrderKept(RewritingOf(src, body, arch, files, render, e), LocalAttributes(body.blocks))
  {
    var w := RewritingOf(src, body, arch, files, render, e);
    MaterializingEdits(src, body, arch, files, render, e, out);
    MaterializedEvaluates(src, body, arch, files, render, e, out);
    LocalsAreAttributes(body.blocks);
    forall a, b | a in LocalAttributes(body.blocks) && b in LocalAttributes(body.blocks) ensures SameOrder(w, a, b) {
      PlacesKeepOrder(w, body, a, b);
    }
  }

  lemma DefinitionsAfter(src: string, body: Body, arch: string, files: map<string, string>, render: Value -> string,
                         e: Extracted)
    requires WellRanged(src, body) && ExtractionHolds(body.blocks, arch, Some(files), e)
    ensures LocalsOf(RewriteBlocks(body.blocks, RewritingOf(src, body, arch, files, render, e)))
         == WithLiterals(LocalsOf(body.blocks), e.locals)
  {
    var w, locals := RewritingOf(src, body, arch, files, render, e), LocalAttributes(body.blocks);
    forall a | a in locals ensures Settled(w, e.locals, a) { LocalSettled(src, body, arch, files, render, e, a); }
    RewrittenLocals(body.blocks, w);
    DefinitionsRewritten(w, e.locals, locals);
  }

  lemma NamesAfter(w: Rewriting, blocks: seq<Block>)
    requires OrderKept(w, LocalAttributes(blocks))
    ensures NamesOf(InSourceOrder(RewriteBlocks(blocks, w))) == NamesOf(InSourceOrder(blocks))
  {
    SourceOrderRewritten(w, blocks);
    RewrittenNamesKept(InSourceOrder(blocks), w);
  }

  lemma ShapeAfter(w: Rewriting, blocks: seq<Block>)
    requires NoNesting(blocks) && DistinctNames(LocalAttributes(blocks))
    ensures NoNesting(RewriteBlocks(blocks, w)) && DistinctNames(LocalAttributes(RewriteBlocks(blocks, w)))
  {
    RewrittenLocals(blocks, w);
    RewrittenNamesKept(LocalAttributes(blocks), w);
    var after := RewriteBlocks(blocks, w);
    forall k | 0 <= k < |after| ensures Flat(after[k]) { RewrittenBlocksFlat(blocks, w, k); }
  }

  lemma LocalNames(blocks: seq<Block>, arch: string, files: map<string, string>, e: Extracted)
    requires ExtractionHolds(blocks, arch, Some(files), e)
    ensures e.locals.Keys == LocalsOf(blocks).Keys
  {
  }

  lemma OrderOfLiterals(before: seq<Block>, after: seq<Block>, values: map<string, Value>)
    requires LocalsOf(after) == WithLiterals(LocalsOf(before), values) && values.Keys == LocalsOf(before).Keys
    requires NamesOf(InSourceOrder(after)) == NamesOf(InSourceOrder(before))
    ensures LocalsOrder(after) == OrderAfter(before)
  {
    LiteralReferences(LocalsOf(before), values);
    LiteralKeys(LocalsOf(before), values);
  }

  /** The locals of the materialized file: the same names, literals for those that called file(), in a known order. */
  lemma LocalsAfter(src: string, body: Body, arch: string, files: map<string, string>, render: Value -> string,
                    e: Extracted, out: string)
    requires WellRanged(src, body) && MaterializesTo(src, body, arch, files, render, e, out) && RendersText(render)
    ensures var blocks := RewriteBlocks(body.blocks, RewritingOf(src, body, arch, files, render, e));
            && LocalsOf(blocks) == WithLiterals(LocalsOf(body.blocks), e.locals)
            && LocalsOrder(blocks) == OrderAfter(body.blocks) && WellFormed(blocks)
            && EvaluationOrder(LocalsOf(blocks), LocalsOrder(blocks))
  {
    var w, defs := RewritingOf(src, body, arch, files, render, e), LocalsOf(body.blocks);
    DefinitionsAfter(src, body, arch, files, render, e);
    AttributesKeepOrder(src, body, arch, files, render, e, out);
    NamesAfter(w, body.blocks);
    ShapeAfter(w, body.blocks);
    LocalNames(body.blocks, arch, files, e);
    OrderOfLiterals(body.blocks, RewriteBlocks(body.blocks, w), e.locals);
    LiteralsOrderable(defs, e.locals);
    LocalsOrderEvaluates(RewriteBlocks(body.blocks, w));
  }

  // Meaning.

  /** The scope of an expression of the materialized file, when it is read without the file function. */
  function ScopeAfter(blocks: seq<Block>, locals: map<string, Value>, arch: string, b: Attribute): Context {
    if b in LocalAttributes(blocks) then OwnScope(LocalsOrder(blocks), locals, arch, None, b.name)
    else Context(locals, arch, None)
  }

  lemma LocalStaysLocal(w: Rewriting, body: Body, a: Attribute)
    requires WellRanged(w.src, body) && EditsMatch(w, AllAttributes(body)) && RendersText(w.render)
    requires AllEvaluate(w, AllAttributes(body)) && a in AllAttributes(body)
    ensures Rewrite(w, a) in LocalAttributes(RewriteBlocks(body.blocks, w)) <==> a in LocalAttributes(body.blocks)
  {
    var locals := LocalAttributes(body.blocks);
    RewrittenLocals(body.blocks, w);
    LocalsAreAttributes(body.blocks);
    if a in locals {
      var i :| 0 <= i < |locals| && locals[i] == a;
      assert RewriteAttributes(locals, w)[i] == Rewrite(w, a);
    }
    if Rewrite(w, a) in RewriteAttributes(locals, w) {
      var i :| 0 <= i < |locals| && RewriteAttributes(locals, w)[i] == Rewrite(w, a);
      assert locals[i] in locals;
      SamePlaceSame(w, body, a, locals[i]);
    }
  }

  lemma SamePlaceSame(w: Rewriting, body: Body, a: Attribute, b: Attribute)
    requires WellRanged(w.src, body) && EditsMatch(w, AllAttributes(body)) && RendersText(w.render)
    requires AllEvaluate(w, AllAttributes(body)) && a in AllAttributes(body) && b in AllAttributes(body)
    requires Rewrite(w, a) == Rewrite(w, b)
    ensures a == b
  {
    PlacesKeepOrder(w, body, a, b);
    PlacesKeepOrder(w, body, b, a);
    BelowIrreflexive(a.name);
    if a != b {
      AttributesDisjoint(w.src, body, a, b);
      AttributeInside(w.src, body, a);
      AttributeInside(w.src, body, b);
    }
  }

  /** An expression outside the locals blocks has its old value in the old locals. */
  lemma OtherValueKept(src: string, body: Body, arch: string, files: map<string, string>, render: Value -> string,
                       e: Extracted, out: string, a: Attribute)
    requires WellRanged(src, body) && MaterializesTo(src, body, arch, files, render, e, out)
    requires a in AllAttributes(body) && a !in LocalAttributes(body.blocks)
    ensures Eval(Rewrite(RewritingOf(src, body, arch, files, render, e), a).expr, Context(e.locals, arch, None))
         == Eval(a.expr, ScopeIn(body.blocks, e.locals, arch, files, a))
  {
    ContextFound(src, body, arch, files, e, a);
    if ContainsFile(a.expr) {
      FileEditsExist(src, body, arch, files, render, e);
    } else {
      EvalWithoutFiles(a.expr, BundleScope(e.locals, arch, files));
    }
  }

  /** The materialized file means the same without the file function: its locals have the old values, and every
      expression has its old value or error. */
  ghost predicate KeepsMeaning(src: string, body: Body, arch: string, files: map<string, string>,
                               render: Value -> string, e: Extracted) {
    var w := RewritingOf(src, body, arch, files, render, e);
    var blocks := RewriteBlocks(body.blocks, w);
    && WellFormed(blocks) && LocalValues(blocks, arch, None) == Ok(e.locals)
    && forall a :: a in AllAttributes(body) ==>
         Eval(Rewrite(w, a).expr, ScopeAfter(blocks, e.locals, arch, Rewrite(w, a)))
         == Eval(a.expr, ScopeIn(body.blocks, e.locals, arch, files, a))
  }

  /** Every local that uses all locals at once and does not call file() has its value among the locals that come before
      it once the references of file() locals are dropped. */
  ghost predicate BareValuesKept(blocks: seq<Block>, arch: string, locals: map<string, Value>) {
    BareValues(WithLiterals(LocalsOf(blocks), locals), arch, None, OrderAfter(blocks), locals)
  }

  /** The materialized file is well formed and calls file() nowhere; it means the same exactly when the values of the
      bare locals are kept. */
  lemma MaterializationPreservesMeaning(src: string, body: Body, arch: string, files: map<string, string>,
                                        render: Value -> string, e: Extracted, out: string)
    requires WellRanged(src, body) && MaterializesTo(src, body, arch, files, render, e, out) && RendersText(render)
    ensures var w := RewritingOf(src, body, arch, files, render, e);
            && WellFormed(RewriteBlocks(body.blocks, w))
            && forall a :: a in AllAttributes(body) ==> !ContainsFile(Rewrite(w, a).expr)
    ensures KeepsMeaning(src, body, arch, files, render, e) <==> BareValuesKept(body.blocks, arch, e.locals)
  {
    var w := RewritingOf(src, body, arch, files, render, e);
    LocalsAfter(src, body, arch, files, render, e, out);
    ValuesKept(body.blocks, RewriteBlocks(body.blocks, w), arch, files, e);
    MaterializedEvaluates(src, body, arch, files, render, e, out);
    if BareValuesKept(body.blocks, arch, e.locals) {
      ExpressionsKept(src, body, arch, files, render, e, out);
    }
  }

  lemma ExpressionsKept(src: string, body: Body, arch: string, files: map<string, string>, render: Value -> string,
                        e: Extracted, out: string)
    requires WellRanged(src, body) && MaterializesTo(src, body, arch, files, render, e, out) && RendersText(render)
    requires LocalValues(RewriteBlocks(body.blocks, RewritingOf(src, body, arch, files, render, e)), arch, None)
          == Ok(e.locals)
    ensures KeepsMeaning(src, body, arch, files, render, e)
  {
    var w := RewritingOf(src, body, arch, files, render, e);
    var blocks := RewriteBlocks(body.blocks, w);
    LocalsAfter(src, body, arch, files, render, e, out);
    MaterializingEdits(src, body, arch, files, render, e, out);
    MaterializedEvaluates(src, body, arch, files, render, e, out);
    forall a | a in AllAttributes(body)
      ensures Eval(Rewrite(w, a).expr, ScopeAfter(blocks, e.locals, arch, Rewrite(w, a)))
           == Eval(a.expr, ScopeIn(body.blocks, e.locals, arch, files, a)) {
      LocalStaysLocal(w, body, a);
      if a in LocalAttributes(body.blocks) {
        LocalValueFound(body.blocks, arch, files, e, a);
        LocalValueAfter(blocks, arch, e, Rewrite(w, a));
      } else {
        OtherValueKept(src, body, arch, files, render, e, out, a);
      }
    }
  }

  lemma ValuesKept(before: seq<Block>, after: seq<Block>, arch: string, files: map<string, string>, e: Extracted)
    requires ExtractionHolds(before, arch, Some(files), e)
    requires LocalsOf(after) == WithLiterals(LocalsOf(before), e.locals) && LocalsOrder(after) == OrderAfter(before)
    requires EvaluationOrder(LocalsOf(after), LocalsOrder(after))
    ensures LocalValues(after, arch, None) == Ok(e.locals) <==> BareValuesKept(before, arch, e.locals)
  {
    LiteralsKeepValues(LocalsOf(before), arch, files, LocalsOrder(before), LocalsOrder(after), e.locals);
  }

  lemma LocalValueAfter(blocks: seq<Block>, arch: string, e: Extracted, b: Attribute)
    requires WellFormed(blocks) && LocalValues(blocks, arch, None) == Ok(e.locals) && b in LocalAttributes(blocks)
    requires EvaluationOrder(LocalsOf(blocks), LocalsOrder(blocks))
    ensures b.name in e.locals && Eval(b.expr, ScopeAfter(blocks, e.locals, arch, b)) == Ok(e.locals[b.name])
  {
    DefinitionsByName(LocalAttributes(blocks));
    LocalHasOwnValue(LocalsOf(blocks), arch, None, LocalsOrder(blocks), b.name);
  }

  // When the values of bare locals are kept.

  /** Kept scopes are enough, whatever the locals are; where each local without file() names what it references or is
      the object of all locals, they are exactly what it takes. */
  lemma ScopesDecideMeaning(src: string, body: Body, arch: string, files: map<string, string>, render: Value -> string,
                            e: Extracted, out: string)
    requires WellRanged(src, body) && MaterializesTo(src, body, arch, files, render, e, out) && RendersText(render)
    ensures ScopesKept(body.blocks) ==> KeepsMeaning(src, body, arch, files, render, e)
    ensures OthersNamedOrWhole(LocalsOf(body.blocks)) ==>
              (KeepsMeaning(src, body, arch, files, render, e) <==> ScopesKept(body.blocks))
  {
    MaterializationPreservesMeaning(src, body, arch, files, render, e, out);
    var blocks := body.blocks;
    if ScopesKept(blocks) {
      SameScopesKeepValues(LocalsOf(blocks), arch, files, LocalsOrder(blocks), OrderAfter(blocks), e.locals);
    }
    if OthersNamedOrWhole(LocalsOf(blocks)) && BareValuesKept(blocks, arch, e.locals) {
      LocalsAfter(src, body, arch, files, render, e, out);
      KeptValuesKeepScopes(blocks, arch, files, e);
    }
  }

  ghost predicate OthersNamedOrWhole(defs: Definitions) {
    forall n :: n in defs && !ContainsFile(defs[n]) ==> NamedOnly(defs[n]) || defs[n] == WholeLocal
  }

  lemma KeptValuesKeepScopes(blocks: seq<Block>, arch: string, files: map<string, string>, e: Extracted)
    requires ExtractionHolds(blocks, arch, Some(files), e) && OthersNamedOrWhole(LocalsOf(blocks))
    requires BareValuesKept(blocks, arch, e.locals) && Elements(OrderAfter(blocks)) == LocalsOf(blocks).Keys
    ensures ScopesKept(blocks)
  {
    forall n | n in LocalsOf(blocks) && LocalsOf(blocks)[n] == WholeLocal
      ensures Before(LocalsOrder(blocks), n) == Before(OrderAfter(blocks), n) {
      KeptValuesMeanSameScope(LocalsOf(blocks), arch, files, LocalsOrder(blocks), OrderAfter(blocks), e.locals, n);
    }
  }

  /** Locals that do not call file() and reference others by name only cannot tell the orders apart. */
  lemma NamedLocalsKeepScopes(blocks: seq<Block>)
    requires OthersNamedOnly(LocalsOf(blocks))
    ensures ScopesKept(blocks)
  {
    NamedOnlySameScopes(LocalsOf(blocks), LocalsOrder(blocks), OrderAfter(blocks));
  }

  /** When no local that calls file() references a local by name, the order stays as it was. */
  lemma IndependentFilesKeepScopes(blocks: seq<Block>)
    requires forall n, d :: n in LocalsOf(blocks) && ContainsFile(LocalsOf(blocks)[n]) ==>
        !Mentions(LocalsOf(blocks)[n], d)
    ensures OrderAfter(blocks) == LocalsOrder(blocks) && ScopesKept(blocks)
  {
    var defs := LocalsOf(blocks);
    forall n | n in defs ensures RemainingReferences(defs)[n] == ReferenceGraph(defs)[n] {
      FirstUsesMembers(References(defs[n]));
      if DependencyNames(defs[n]) != [] {
        assert Mentions(defs[n], DependencyNames(defs[n])[0]);
      }
    }
    assert RemainingReferences(defs) == ReferenceGraph(defs);
  }

  lemma RemainingOrder(blocks: seq<Block>)
    requires WellFormed(blocks)
    ensures var order, g := OrderAfter(blocks), RemainingReferences(LocalsOf(blocks));
            NoDuplicates(order) && DependenciesFirst(g, order) && Elements(order) == LocalsOf(blocks).Keys
  {
    var defs := LocalsOf(blocks);
    var values: map<string, Value> := map n | n in defs :: Str("");
    var literals, sources := WithLiterals(defs, values), NamesOf(InSourceOrder(blocks));
    LiteralKeys(defs, values);
    LiteralReferences(defs, values);
    LiteralsOrderable(defs, values);
    SourceNames(blocks);
    OrderableFromAll(literals, sources);
    SortedFromIsSorted(ReferenceGraph(literals), literals.Keys, sources);
    SortedIsEvaluationOrder(literals, sources, OrderAfter(blocks));
  }

  lemma RemainingAreReferences(blocks: seq<Block>)
    requires WellFormed(blocks)
    ensures DependenciesFirst(RemainingReferences(LocalsOf(blocks)), LocalsOrder(blocks))
  {
    var defs, order := LocalsOf(blocks), LocalsOrder(blocks);
    LocalsOrderEvaluates(blocks);
    EvaluationOrderDependencies(defs, order);
    forall i, d | 0 <= i < |order| && Edge(RemainingReferences(defs), order[i], d) ensures d in order[..i] {
      assert Edge(ReferenceGraph(defs), order[i], d);
    }
  }

  /** When every local that uses all locals at once and does not call file() is, by the references of such locals, a
      transitive dependency or dependent of every other local, the orders agree for it. */
  lemma ComparableLocalsKeepScopes(blocks: seq<Block>)
    requires WellFormed(blocks)
    requires var defs, g := LocalsOf(blocks), RemainingReferences(LocalsOf(blocks));
             forall n, m :: n in defs && !ContainsFile(defs[n]) && !NamedOnly(defs[n]) && m in defs && m != n ==>
               Depends(g, n, m) || Depends(g, m, n)
    ensures ScopesKept(blocks)
  {
    var defs, g := LocalsOf(blocks), RemainingReferences(LocalsOf(blocks));
    RemainingOrder(blocks);
    RemainingAreReferences(blocks);
    LocalsOrderEvaluates(blocks);
    forall n | n in defs && !ContainsFile(defs[n]) && !NamedOnly(defs[n])
      ensures Before(LocalsOrder(blocks), n) == Before(OrderAfter(blocks), n) {
      ComparableSameScope(g, LocalsOrder(blocks), OrderAfter(blocks), n);
    }
  }

  // Materializing twice.

  /** A materialized file can be materialized again, with any files, exactly when its locals have values without files;
      where the scopes of bare locals are kept it can. The result is the text it was. */
  lemma MaterializingAgain(src: string, body: Body, arch: string, files: map<string, string>,
                           files': map<string, string>, render: Value -> string, e: Extracted, out: string)
    requires WellRanged(src, body) && MaterializesTo(src, body, arch, files, render, e, out) && RendersText(render)
    ensures var again := RewriteBody(body, RewritingOf(src, body, arch, files, render, e));
            && WellRanged(out, again)
            && (Materializable(again, arch, files') <==> LocalValues(again.blocks, arch, None).Ok?)
            && (ScopesKept(body.blocks) ==> Materializable(again, arch, files'))
            && (Materializable(again, arch, files')
                <==> exists e' :: MaterializesTo(out, again, arch, files', render, e', out))
            && forall e', out' :: MaterializesTo(out, again, arch, files', render, e', out') ==> out' == out
  {
    var again := RewriteBody(body, RewritingOf(src, body, arch, files, render, e));
    TextMatchesStructure(src, body, arch, files, render, e, out);
    LocalsAfter(src, body, arch, files, render, e, out);
    ScopesDecideMeaning(src, body, arch, files, render, e, out);
    NoFileLeft(src, body, arch, files, render, e, out);
    FilesIrrelevant(again.blocks, arch, files');
    forall e', out' | MaterializesTo(out, again, arch, files', render, e', out') ensures out' == out {
      MaterializingTwice(src, body, arch, files, files', render, e, out, e', out');
    }
    if Materializable(again, arch, files') {
      var e', out' := MaterializationExists(out, again, arch, files', render);
    }
    if e' :| MaterializesTo(out, again, arch, files', render, e', out) {
      FileEditsExist(out, again, arch, files', render, e');
    }
  }

  /** Locals that do not call file() evaluate alike with files and without. */
  lemma FilesIrrelevant(blocks: seq<Block>, arch: string, files: map<string, string>)
    requires WellFormed(blocks) && forall a :: a in BlockAttributes(blocks) ==> !ContainsFile(a.expr)
    ensures LocalValues(blocks, arch, Some(files)) == LocalValues(blocks, arch, None)
  {
    var defs := LocalsOf(blocks);
    LocalsAreAttributes(blocks);
    DefinitionsByName(LocalAttributes(blocks));
    forall n | n in defs ensures !ContainsFile(defs[n]) {
      var a :| a in LocalAttributes(blocks) && a.name == n;
    }
    EvaluationWithoutFiles(defs, arch, files, LocalsOrder(blocks));
  }

  lemma {:induction false} EvaluationWithoutFiles(defs: Definitions, arch: string, files: map<string, string>,
                                                  order: seq<string>)
    requires (forall n :: n in order ==> n in defs) && forall n :: n in defs ==> !ContainsFile(defs[n])
    ensures EvaluateInOrder(defs, arch, Some(files), order) == EvaluateInOrder(defs, arch, None, order)
  {
    if order != [] {
      var init, last := order[..|order| - 1], order[|order| - 1];
      EvaluationWithoutFiles(defs, arch, files, init);
      var before := EvaluateInOrder(defs, arch, None, init);
      if before.Ok? {
        EvalWithoutFiles(defs[last], Context(before.value, arch, Some(files)));
      }
    }
  }
}
