/** A family of bundle files whose meaning materialization changes. */
module ChangedMeaning {
  import opened Wrappers
  import opened Sequences
  import opened Ordering
  import opened Walks
  import opened LocalOrder
  import opened Expressions
  import opened LocalEvaluation
  import opened MaterializedLocals
  import opened BundleSource
  import opened Materialization
  import opened MaterializedText
  import opened MaterializedMeaning

  /** The names of three locals. */
  datatype Trio = Trio(a: string, b: string, c: string) {
    predicate Distinct() {
      a != b && a != c && b != c
    }
  }

  const FILES := map["p" := "0"]

  // locals { a = "${file("p")}${local.c}", b = local, c = "1" } and, elsewhere, local.b.c

  function A(t: Trio): Attribute {
    Attribute(t.a, Concat(File(Literal(Str("p"))), Local(t.c)), 1, 2)
  }

  function B(t: Trio): Attribute {
    Attribute(t.b, WholeLocal, 2, 3)
  }

  function C(t: Trio): Attribute {
    Attribute(t.c, Literal(Str("1")), 3, 4)
  }

  function X(t: Trio): Attribute {
    Attribute("x", Field(Local(t.b), t.c), 0, 1)
  }

  function Locals(t: Trio): Block {
    Block("locals", Body([A(t), B(t), C(t)], []))
  }

  function FileOf(t: Trio): Body {
    Body([X(t)], [Locals(t)])
  }

  function Defs(t: Trio): Definitions {
    map[t.a := A(t).expr, t.b := B(t).expr, t.c := C(t).expr]
  }

  function Names(t: Trio): seq<string> {
    [t.a, t.b, t.c]
  }

  lemma DefineThree(x: Attribute, y: Attribute, z: Attribute)
    ensures DefinitionsOf([x, y, z]) == map[x.name := x.expr][y.name := y.expr][z.name := z.expr]
  {
    assert [x, y, z][..2] == [x, y] && [x, y][..1] == [x] && [x][..0] == [];
    var none: Definitions := map[];
    assert DefinitionsOf([x]) == none[x.name := x.expr] == map[x.name := x.expr];
  }

  lemma TheDefinitions(t: Trio)
    requires t.Distinct()
    ensures DefinitionsOf([A(t), B(t), C(t)]) == Defs(t)
  {
    DefineThree(A(t), B(t), C(t));
  }

  lemma TheLocals(t: Trio)
    requires t.Distinct()
    ensures LocalAttributes([Locals(t)]) == [A(t), B(t), C(t)] && LocalsOf([Locals(t)]) == Defs(t)
    ensures NoNesting([Locals(t)]) && DistinctNames([A(t), B(t), C(t)])
  {
    OneBlock(Locals(t));
    TheDefinitions(t);
  }

  lemma AscendingThree(x: Attribute, y: Attribute, z: Attribute)
    requires x.start < y.start < z.start
    ensures StrictlySorted(ByPosition, [x, y, z])
  {
  }

  lemma NamesOfThree(x: Attribute, y: Attribute, z: Attribute)
    ensures NamesOf([x, y, z]) == [x.name, y.name, z.name]
  {
  }

  lemma TheNames(t: Trio)
    ensures NamesOf(InSourceOrder([Locals(t)])) == Names(t)
  {
    AscendingThree(A(t), B(t), C(t));
    SortedBlock(Locals(t));
    NamesOfThree(A(t), B(t), C(t));
  }

  lemma OneReference(e: Expr, n: string)
    requires References(e) == [Some(n)]
    ensures DependencyNames(e) == [n]
  {
    assert References(e)[..0] == [];
    assert FirstUses(References(e)[..0]) == [];
  }

  lemma NoNamedReference(e: Expr)
    requires References(e) == [None] || References(e) == []
    ensures DependencyNames(e) == []
  {
    if References(e) == [None] {
      assert References(e)[..0] == [];
      assert FirstUses(References(e)[..0]) == [];
    }
  }

  lemma TheExpressions(t: Trio)
    ensures References(A(t).expr) == [Some(t.c)] && References(B(t).expr) == [None] && References(C(t).expr) == []
    ensures ContainsFile(A(t).expr) && !ContainsFile(B(t).expr) && !ContainsFile(C(t).expr) && !ContainsFile(X(t).expr)
  {
    var file: Expr := File(Literal(Str("p")));
    assert References(file) == [] && ContainsFile(file);
    assert References(Local(t.c)) == [Some(t.c)];
    assert [] + [Some(t.c)] == [Some(t.c)];
  }

  lemma TheReferences(t: Trio)
    requires t.Distinct()
    ensures Dependencies(ReferenceGraph(Defs(t)), t.a) == [t.c] && Dependencies(ReferenceGraph(Defs(t)), t.b) == []
    ensures Dependencies(ReferenceGraph(Defs(t)), t.c) == []
    ensures forall n :: Dependencies(RemainingReferences(Defs(t)), n) == []
  {
    TheExpressions(t);
    OneReference(A(t).expr, t.c);
    NoNamedReference(B(t).expr);
    NoNamedReference(C(t).expr);
  }

  lemma TheOrderable(t: Trio)
    requires t.Distinct()
    ensures LocalsOrderable(Defs(t))
  {
    TheReferences(t);
    var names, order, g := Names(t), [t.c, t.a, t.b], ReferenceGraph(Defs(t));
    forall i, d | 0 <= i < |order| && Edge(g, order[i], d) ensures d in order[..i] {
      assert d in Dependencies(g, order[i]);
      assert i == 1 && d == t.c && order[..1] == [t.c];
    }
    assert names[0] in Elements(names) && names[1] in Elements(names) && names[2] in Elements(names);
    assert order[0] in Elements(order) && order[1] in Elements(order) && order[2] in Elements(order);
    ListedMeansOrderable(g, Defs(t).Keys, names, order);
    OrderableFromAll(Defs(t), names);
  }

  lemma VisitLeaf(g: Graph, exprs: set<string>, order: seq<string>, open: set<string>, n: string)
    requires n in exprs && n !in open && n !in order && Dependencies(g, n) == []
    ensures PostOrder(g, exprs, order, open, n) == order + [n]
  {
  }

  lemma VisitAfterLeaf(g: Graph, exprs: set<string>, n: string, leaf: string)
    requires n in exprs && leaf in exprs && n != leaf && Dependencies(g, n) == [leaf] && Dependencies(g, leaf) == []
    ensures PostOrder(g, exprs, [], {}, n) == [leaf, n]
  {
    VisitLeaf(g, exprs, [], {n}, leaf);
    assert {} + {n} == {n};
    assert PostOrderAll(g, exprs, [], {n}, [leaf], 0) == [];
    assert PostOrderAll(g, exprs, [], {n}, [leaf], 1) == [leaf];
  }

  lemma SortThree(g: Graph, exprs: set<string>, t: Trio, first: seq<string>, second: seq<string>, third: seq<string>)
    requires first == PostOrder(g, exprs, [], {}, t.a)
    requires second == PostOrder(g, exprs, first, {}, t.b)
    requires third == PostOrder(g, exprs, second, {}, t.c)
    ensures SortedFrom(g, exprs, Names(t)) == third
  {
    var names := Names(t);
    assert PostOrderAll(g, exprs, [], {}, names, 0) == [];
    assert PostOrderAll(g, exprs, [], {}, names, 1) == first;
    assert PostOrderAll(g, exprs, [], {}, names, 2) == second;
    assert PostOrderAll(g, exprs, [], {}, names, 3) == third;
  }

  lemma TheOrderBefore(t: Trio)
    requires t.Distinct()
    ensures LocalsOrder([Locals(t)]) == [t.c, t.a, t.b]
  {
    TheLocals(t);
    TheNames(t);
    TheReferences(t);
    var g, exprs := ReferenceGraph(Defs(t)), Defs(t).Keys;
    VisitAfterLeaf(g, exprs, t.a, t.c);
    VisitLeaf(g, exprs, [t.c, t.a], {}, t.b);
    SortThree(g, exprs, t, [t.c, t.a], [t.c, t.a, t.b], [t.c, t.a, t.b]);
  }

  lemma TheOrderAfter(t: Trio)
    requires t.Distinct()
    ensures OrderAfter([Locals(t)]) == [t.a, t.b, t.c]
  {
    TheLocals(t);
    TheNames(t);
    TheReferences(t);
    var g, exprs := RemainingReferences(Defs(t)), Defs(t).Keys;
    VisitLeaf(g, exprs, [], {}, t.a);
    VisitLeaf(g, exprs, [t.a], {}, t.b);
    VisitLeaf(g, exprs, [t.a, t.b], {}, t.c);
    SortThree(g, exprs, t, [t.a], [t.a, t.b], [t.a, t.b, t.c]);
  }

  lemma TheScopesDiffer(t: Trio)
    requires t.Distinct()
    ensures !ScopesKept([Locals(t)])
  {
    TheLocals(t);
    TheOrderBefore(t);
    TheOrderAfter(t);
    var before, after := [t.c, t.a, t.b], [t.a, t.b, t.c];
    BeforeAt(before, 2);
    BeforeAt(after, 1);
    assert before[..2] == [t.c, t.a] && after[..1] == [t.a];
    assert t.c in Elements([t.c, t.a]) && t.c !in Elements([t.a]);
    WholeIsNotNamed();
    assert t.b in Defs(t) && Defs(t)[t.b] == WholeLocal;
  }

  lemma WholeIsNotNamed()
    ensures !NamedOnly(WholeLocal) && !ContainsFile(WholeLocal)
  {
    assert References(WholeLocal)[0] == None;
  }

  /** Values of three locals evaluated one after the other. */
  lemma EvaluateThree(defs: Definitions, arch: string, files: Option<map<string, string>>, x: string, y: string,
                      z: string, first: Value, second: Value, third: Value)
    requires x in defs && y in defs && z in defs
    requires Eval(defs[x], Context(map[], arch, files)) == Ok(first)
    requires Eval(defs[y], Context(map[x := first], arch, files)) == Ok(second)
    requires Eval(defs[z], Context(map[x := first][y := second], arch, files)) == Ok(third)
    ensures EvaluateInOrder(defs, arch, files, [x, y, z]) == Ok(map[x := first][y := second][z := third])
  {
    var none: map<string, Value> := map[];
    assert [x, y, z][..2] == [x, y] && [x, y][..1] == [x] && [x][..0] == [];
    assert none[x := first] == map[x := first];
    assert EvaluateInOrder(defs, arch, files, [x]) == Ok(map[x := first]);
    assert EvaluateInOrder(defs, arch, files, [x, y]) == Ok(map[x := first][y := second]);
  }

  lemma TheValuesBefore(t: Trio)
    requires t.Distinct()
    ensures var scope := map[t.c := Str("1")][t.a := Str("0" + "1")];
            LocalValues([Locals(t)], "", Some(FILES)) == Ok(scope[t.b := Object(scope)])
  {
    TheLocals(t);
    TheOrderBefore(t);
    var scope := map[t.c := Str("1")][t.a := Str("0" + "1")];
    var ctx := Context(map[t.c := Str("1")], "", Some(FILES));
    assert Eval(File(Literal(Str("p"))), ctx) == Ok(Str("0"));
    assert Eval(A(t).expr, ctx) == Ok(Str("0" + "1"));
    EvaluateThree(Defs(t), "", Some(FILES), t.c, t.a, t.b, Str("1"), Str("0" + "1"), Object(scope));
  }

  lemma TheValuesAfter(t: Trio, after: seq<Block>, values: map<string, Value>)
    requires t.Distinct() && t.a in values && values[t.a] == Str("0" + "1")
    requires LocalsOf(after) == WithLiterals(Defs(t), values) && LocalsOrder(after) == [t.a, t.b, t.c]
    ensures var scope := map[t.a := Str("0" + "1")];
            LocalValues(after, "", None) == Ok(scope[t.b := Object(scope)][t.c := Str("1")])
  {
    var defs, scope := WithLiterals(Defs(t), values), map[t.a := Str("0" + "1")];
    TheExpressions(t);
    assert defs[t.a] == Literal(Str("0" + "1")) && defs[t.b] == WholeLocal && defs[t.c] == C(t).expr;
    EvaluateThree(defs, "", None, t.a, t.b, t.c, Str("0" + "1"), Object(scope), Str("1"));
  }

  lemma ConsecutivePlaces(src: string, body: Body)
    requires |AllAttributes(body)| == |src|
    requires forall i :: 0 <= i < |src| ==> AllAttributes(body)[i].start == i && AllAttributes(body)[i].end == i + 1
    ensures WellRanged(src, body)
  {
  }

  lemma FourAttributes(t: Trio)
    ensures AllAttributes(FileOf(t)) == [X(t), A(t), B(t), C(t)]
  {
    OneBlock(Locals(t));
    assert AllAttributes(Locals(t).body) == [A(t), B(t), C(t)];
    assert [X(t)] + [A(t), B(t), C(t)] == [X(t), A(t), B(t), C(t)];
  }

  lemma TheAttributes(t: Trio)
    ensures AllAttributes(FileOf(t)) == [X(t), A(t), B(t), C(t)] && WellRanged("xabc", FileOf(t))
  {
    FourAttributes(t);
    ConsecutivePlaces("xabc", FileOf(t));
  }

  lemma OneFileCall(t: Trio, a: Attribute)
    requires a in AllAttributes(FileOf(t)) && ContainsFile(a.expr)
    ensures a == A(t)
  {
    TheAttributes(t);
  }

  lemma ItMaterializes(t: Trio)
    requires t.Distinct()
    ensures Materializable(FileOf(t), "", FILES)
  {
    TheLocals(t);
    TheOrderable(t);
    TheValuesBefore(t);
    LocalsOrderEvaluates([Locals(t)]);
    assert A(t) in [A(t), B(t), C(t)];
    LocalHasOwnValue(Defs(t), "", Some(FILES), LocalsOrder([Locals(t)]), t.a);
    forall a | a in AllAttributes(FileOf(t)) && ContainsFile(a.expr) ensures a == A(t) { OneFileCall(t, a); }
  }

  /** The value of local.b.c, where b is the object of these locals. */
  lemma FieldOf(t: Trio, locals: map<string, Value>, scope: map<string, Value>, arch: string,
                files: Option<map<string, string>>)
    requires t.b in locals && locals[t.b] == Object(scope)
    ensures Eval(X(t).expr, Context(locals, arch, files))
         == if t.c in scope then Ok(scope[t.c]) else Err(UnknownField(t.c))
  {
    assert Eval(Local(t.b), Context(locals, arch, files)) == Ok(Object(scope));
  }

  lemma TheRewrittenLocals(t: Trio, render: Value -> string, e: Extracted, out: string)
    requires t.Distinct() && RendersText(render) && MaterializesTo("xabc", FileOf(t), "", FILES, render, e, out)
    ensures var after := RewriteBlocks([Locals(t)], RewritingOf("xabc", FileOf(t), "", FILES, render, e));
            LocalsOf(after) == WithLiterals(Defs(t), e.locals) && LocalsOrder(after) == [t.a, t.b, t.c]
  {
    TheAttributes(t);
    TheLocals(t);
    TheOrderAfter(t);
    LocalsAfter("xabc", FileOf(t), "", FILES, render, e, out);
  }

  /** Replacing file("p") by its content takes away a's reference to c: before, the order is c, a, b; afterwards it is
      a, b, c, so that b no longer holds c. An expression local.b.c that had a value fails in the materialized file. */
  lemma FileReferenceHeldTheOrder(t: Trio, render: Value -> string) returns (e: Extracted, out: string)
    requires t.Distinct() && RendersText(render)
    ensures WellRanged("xabc", FileOf(t)) && MaterializesTo("xabc", FileOf(t), "", FILES, render, e, out)
    ensures LocalsOrder([Locals(t)]) == [t.c, t.a, t.b] && OrderAfter([Locals(t)]) == [t.a, t.b, t.c]
    ensures !ScopesKept([Locals(t)])
    ensures Eval(X(t).expr, BundleScope(e.locals, "", FILES)) == Ok(Str("1"))
    ensures FailsAfter(RewritingOf("xabc", FileOf(t), "", FILES, render, e), t)
  {
    TheAttributes(t);
    ItMaterializes(t);
    e, out := MaterializationExists("xabc", FileOf(t), "", FILES, render);
    TheOrderBefore(t);
    TheOrderAfter(t);
    TheScopesDiffer(t);
    TheExpressionChanges(t, render, e, out);
  }

  /** In the rewritten file the locals still have values, but the unchanged expression fails. */
  ghost predicate FailsAfter(w: Rewriting, t: Trio) {
    var after := LocalValues(RewriteBlocks([Locals(t)], w), "", None);
    && after.Ok? && Rewrite(w, X(t)).expr == X(t).expr
    && Eval(X(t).expr, Context(after.value, "", None)) == Err(UnknownField(t.c))
  }

  lemma TheExpressionChanges(t: Trio, render: Value -> string, e: Extracted, out: string)
    requires t.Distinct() && RendersText(render) && MaterializesTo("xabc", FileOf(t), "", FILES, render, e, out)
    ensures Eval(X(t).expr, BundleScope(e.locals, "", FILES)) == Ok(Str("1"))
    ensures FailsAfter(RewritingOf("xabc", FileOf(t), "", FILES, render, e), t)
  {
    BeforeItWorks(t, e.locals);
    TheRewrittenLocals(t, render, e, out);
    AfterwardsItFails(t, RewriteBlocks([Locals(t)], RewritingOf("xabc", FileOf(t), "", FILES, render, e)), e.locals);
    TheExpressions(t);
  }

  lemma BeforeItWorks(t: Trio, locals: map<string, Value>)
    requires t.Distinct() && LocalValues([Locals(t)], "", Some(FILES)) == Ok(locals)
    ensures t.a in locals && locals[t.a] == Str("0" + "1")
    ensures Eval(X(t).expr, BundleScope(locals, "", FILES)) == Ok(Str("1"))
  {
    TheValuesBefore(t);
    FieldOf(t, locals, map[t.c := Str("1")][t.a := Str("0" + "1")], "", Some(FILES));
  }

  lemma AfterwardsItFails(t: Trio, blocks: seq<Block>, values: map<string, Value>)
    requires t.Distinct() && t.a in values && values[t.a] == Str("0" + "1")
    requires LocalsOf(blocks) == WithLiterals(Defs(t), values) && LocalsOrder(blocks) == [t.a, t.b, t.c]
    ensures LocalValues(blocks, "", None).Ok?
    ensures Eval(X(t).expr, Context(LocalValues(blocks, "", None).value, "", None)) == Err(UnknownField(t.c))
  {
    var after := map[t.a := Str("0" + "1")];
    TheValuesAfter(t, blocks, values);
    FieldOf(t, after[t.b := Object(after)][t.c := Str("1")], after, "", None);
  }
}
