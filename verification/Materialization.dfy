/** Replacing file() calls by literals, internal/bundle/expressions.go: what the rewritten text is and means. */
module Materialization {
  import opened Wrappers
  import opened Sequences
  import opened Ordering
  import opened Expressions
  import opened LocalEvaluation
  import opened BundleSource
  import opened Occurrences
  import opened TextEdits

  datatype MaterializeError =
    | BadLocals(locals: LocalsError)
    | BadExpression(eval: EvalError)

  /** What the parser guarantees: expression ranges are nonempty, inside the text, and do not overlap. */
  ghost predicate WellRanged(src: string, body: Body) {
    var attributes := AllAttributes(body);
    && (forall i :: 0 <= i < |attributes| ==> attributes[i].start < attributes[i].end <= |src|)
    && (forall i, j :: 0 <= i < j < |attributes| ==> Apart(attributes[i], attributes[j]))
  }

  ghost predicate Apart(a: Attribute, b: Attribute) {
    a.end <= b.start || b.end <= a.start
  }

  /** The attributes whose expressions call file(), in order. */
  function WithFile(attributes: seq<Attribute>): seq<Attribute> {
    if attributes == [] then []
    else
      var init, last := WithFile(attributes[..|attributes| - 1]), attributes[|attributes| - 1];
      if ContainsFile(last.expr) then init + [last] else init
  }

  lemma {:induction false} WithFileMembers(attributes: seq<Attribute>)
    ensures forall a :: a in WithFile(attributes) <==> a in attributes && ContainsFile(a.expr)
  {
    if attributes != [] {
      WithFileMembers(attributes[..|attributes| - 1]);
      assert attributes == attributes[..|attributes| - 1] + [attributes[|attributes| - 1]];
    }
  }

  lemma {:induction false} WithFileConcat(xs: seq<Attribute>, ys: seq<Attribute>)
    ensures WithFile(xs + ys) == WithFile(xs) + WithFile(ys)
  {
    if ys == [] {
      assert xs + ys == xs;
    } else {
      assert (xs + ys)[..|xs + ys| - 1] == xs + ys[..|ys| - 1];
      WithFileConcat(xs, ys[..|ys| - 1]);
    }
  }

  lemma WithFileSnoc(attributes: seq<Attribute>, i: nat)
    requires i < |attributes|
    ensures WithFile(attributes[..i + 1])
         == WithFile(attributes[..i]) + if ContainsFile(attributes[i].expr) then [attributes[i]] else []
  {
    assert attributes[..i + 1][..i] == attributes[..i];
  }

  lemma WithFileNextBlock(body: Body, i: nat)
    requires i < |body.blocks|
    ensures WithFile(body.attributes + BlockAttributes(body.blocks[..i + 1]))
         == WithFile(body.attributes + BlockAttributes(body.blocks[..i])) + WithFile(AllAttributes(body.blocks[i].body))
  {
    assert body.blocks[..i + 1][..i] == body.blocks[..i];
    var before, inner := body.attributes + BlockAttributes(body.blocks[..i]), AllAttributes(body.blocks[i].body);
    assert body.attributes + BlockAttributes(body.blocks[..i + 1]) == before + inner;
    WithFileConcat(before, inner);
  }

  lemma WithFileEnds(body: Body)
    ensures WithFile(body.attributes[..|body.attributes|])
         == WithFile(body.attributes + BlockAttributes(body.blocks[..0]))
    ensures WithFile(body.attributes + BlockAttributes(body.blocks[..|body.blocks|])) == WithFile(AllAttributes(body))
  {
    assert body.attributes[..|body.attributes|] == body.attributes + BlockAttributes(body.blocks[..0]);
    assert body.blocks[..|body.blocks|] == body.blocks;
  }

  /** Collects the expressions that call file() from a body and the blocks nested in it. */
  method FileCallContainingExpressions(body: Body) returns (found: seq<Attribute>)
    ensures found == WithFile(AllAttributes(body))
    decreases body
  {
    found := [];
    for i := 0 to |body.attributes|
      invariant found == WithFile(body.attributes[..i])
    {
      WithFileSnoc(body.attributes, i);
      if ContainsFile(body.attributes[i].expr) {
        found := found + [body.attributes[i]];
      }
    }
    WithFileEnds(body);
    for i := 0 to |body.blocks|
      invariant found == WithFile(body.attributes + BlockAttributes(body.blocks[..i]))
    {
      WithFileNextBlock(body, i);
      var inner := FileCallContainingExpressions(body.blocks[i].body);
      found := found + inner;
    }
  }

  /** Collected are exactly the attributes, in the body or in a block of it at any depth, in whose expression some node
      is a call of file. */
  lemma CollectedExactly(body: Body)
    ensures forall a :: a in WithFile(AllAttributes(body)) <==> Holds(body, a) && CallsFile(a.expr)
  {
    WithFileMembers(AllAttributes(body));
    forall a ensures a in WithFile(AllAttributes(body)) <==> Holds(body, a) && CallsFile(a.expr) {
      AllAttributesMeaning(body, a);
      ContainsFileMeaning(a.expr);
    }
  }

  /** The scope an expression is evaluated in: its local context if it has one, the common one otherwise. */
  function ScopeOf(a: Attribute, ctx: Context, contexts: map<nat, Context>): Context {
    if a.start in contexts then contexts[a.start] else ctx
  }

  /** The edits that put values in place of the given expressions, or the first evaluation error. */
  function Replacements(attributes: seq<Attribute>, ctx: Context, contexts: map<nat, Context>, render: Value -> string)
    : Result<seq<Edit>, EvalError>
  {
    if attributes == [] then Ok([])
    else
      var last := attributes[|attributes| - 1];
      var init := Replacements(attributes[..|attributes| - 1], ctx, contexts, render);
      if init.Err? then init
      else match Eval(last.expr, ScopeOf(last, ctx, contexts))
        case Err(e) => Err(e)
        case Ok(v) => Ok(init.value + [Edit(last.start, last.end, render(v))])
  }

  lemma {:induction false} ReplacementsByIndex(attributes: seq<Attribute>, ctx: Context, contexts: map<nat, Context>,
                                               render: Value -> string)
    ensures var r := Replacements(attributes, ctx, contexts, render);
            && (r.Ok? <==> forall i :: 0 <= i < |attributes| ==>
                  Eval(attributes[i].expr, ScopeOf(attributes[i], ctx, contexts)).Ok?)
            && (r.Ok? ==> |r.value| == |attributes| && forall i :: 0 <= i < |attributes| ==>
                  && Eval(attributes[i].expr, ScopeOf(attributes[i], ctx, contexts)).Ok?
                  && r.value[i] == Edit(attributes[i].start, attributes[i].end,
                                        render(Eval(attributes[i].expr, ScopeOf(attributes[i], ctx, contexts)).value)))
  {
    if attributes != [] {
      ReplacementsByIndex(attributes[..|attributes| - 1], ctx, contexts, render);
      assert forall i :: 0 <= i < |attributes| - 1 ==> attributes[..|attributes| - 1][i] == attributes[i];
    }
  }

  /** Subsequences of disjoint ranges are disjoint. */
  lemma {:induction false} WithFileDisjoint(attributes: seq<Attribute>, length: nat)
    requires forall i :: 0 <= i < |attributes| ==> attributes[i].start < attributes[i].end <= length
    requires forall i, j :: 0 <= i < j < |attributes| ==> Apart(attributes[i], attributes[j])
    ensures forall i :: 0 <= i < |WithFile(attributes)| ==>
              WithFile(attributes)[i].start < WithFile(attributes)[i].end <= length
    ensures forall i, j :: 0 <= i < j < |WithFile(attributes)| ==>
              Apart(WithFile(attributes)[i], WithFile(attributes)[j])
  {
    if attributes != [] {
      var init, last := attributes[..|attributes| - 1], attributes[|attributes| - 1];
      WithFileDisjoint(init, length);
      WithFileMembers(init);
      var found := WithFile(init);
      forall i | 0 <= i < |found| ensures Apart(found[i], last) {
        assert found[i] in init;
        var k :| 0 <= k < |init| && init[k] == found[i];
        assert attributes[k] == found[i];
      }
      var all := WithFile(attributes);
      assert all == if ContainsFile(last.expr) then found + [last] else found;
      forall i, j | 0 <= i < j < |all| ensures Apart(all[i], all[j]) {
        assert all[i] == found[i];
        if j < |found| {
          assert all[j] == found[j] && Apart(found[i], found[j]);
        } else {
          assert all[j] == last;
        }
      }
    }
  }

  lemma ReplacementsApplicable(src: string, body: Body, ctx: Context, contexts: map<nat, Context>,
                               render: Value -> string)
    requires WellRanged(src, body)
    ensures var r := Replacements(WithFile(AllAttributes(body)), ctx, contexts, render);
            r.Ok? ==> Applicable(r.value, |src|)
  {
    WithFileDisjoint(AllAttributes(body), |src|);
    ReplacementsByIndex(WithFile(AllAttributes(body)), ctx, contexts, render);
  }

  /** Puts the values of all expressions that call file() in their places, in one simultaneous substitution. */
  method MaterializeFileCallExpressions(src: string, body: Body, ctx: Context, contexts: map<nat, Context>,
                                        render: Value -> string)
    returns (r: Result<string, EvalError>)
    requires WellRanged(src, body)
    ensures match Replacements(WithFile(AllAttributes(body)), ctx, contexts, render)
            case Err(e) => r == Err(e)
            case Ok(edits) =>
              Ascending(Sort(Earlier, edits), |src|) && r == Ok(Substitute(src, Sort(Earlier, edits)))
  {
    var expressions := FileCallContainingExpressions(body);
    var replacements: seq<Edit> := [];
    for i := 0 to |expressions|
      invariant Replacements(expressions[..i], ctx, contexts, render) == Ok(replacements)
    {
      assert expressions[..i + 1][..i] == expressions[..i];
      var a := expressions[i];
      var scope := ctx;
      if a.start in contexts {
        scope := contexts[a.start];
      }
      var value := Eval(a.expr, scope);
      if value.Err? {
        FirstErrorWins(expressions, ctx, contexts, render, i + 1);
        return Err(value.error);
      }
      replacements := replacements + [Edit(a.start, a.end, render(value.value))];
    }
    assert expressions[..|expressions|] == expressions;
    ReplacementsApplicable(src, body, ctx, contexts, render);
    var out := Splice(src, replacements);
    return Ok(out);
  }

  lemma {:induction false} FirstErrorWins(attributes: seq<Attribute>, ctx: Context, contexts: map<nat, Context>,
                                          render: Value -> string, k: nat)
    requires k <= |attributes| && Replacements(attributes[..k], ctx, contexts, render).Err?
    ensures Replacements(attributes, ctx, contexts, render) == Replacements(attributes[..k], ctx, contexts, render)
    decreases |attributes|
  {
    if k == |attributes| {
      assert attributes[..k] == attributes;
    } else {
      assert attributes[..|attributes| - 1][..k] == attributes[..k];
      FirstErrorWins(attributes[..|attributes| - 1], ctx, contexts, render, k);
    }
  }

  lemma AttributesDisjoint(src: string, body: Body, a: Attribute, b: Attribute)
    requires WellRanged(src, body) && a in AllAttributes(body) && b in AllAttributes(body) && a != b
    ensures a.end <= b.start || b.end <= a.start
  {
    var attributes := AllAttributes(body);
    var i :| 0 <= i < |attributes| && attributes[i] == a;
    var j :| 0 <= j < |attributes| && attributes[j] == b;
    RangesApart(src, body, i, j);
    RangesApart(src, body, j, i);
  }

  lemma RangesApart(src: string, body: Body, i: nat, j: nat)
    requires WellRanged(src, body) && i < |AllAttributes(body)| && j < |AllAttributes(body)|
    ensures i < j ==> Apart(AllAttributes(body)[i], AllAttributes(body)[j])
  {
  }

  /** Attributes are kept in a map, so they may be collected in any order: that decides neither success nor the text. */
  lemma CollectionOrderIrrelevant(src: string, body: Body, found: seq<Attribute>, ctx: Context,
                                  contexts: map<nat, Context>, render: Value -> string)
    requires WellRanged(src, body) && multiset(found) == multiset(WithFile(AllAttributes(body)))
    ensures var x := Replacements(found, ctx, contexts, render);
            var y := Replacements(WithFile(AllAttributes(body)), ctx, contexts, render);
            && (x.Ok? <==> y.Ok?)
            && (x.Ok? ==> Applicable(x.value, |src|) && Sort(Earlier, x.value) == Sort(Earlier, y.value))
  {
    var all := WithFile(AllAttributes(body));
    var x, y := Replacements(found, ctx, contexts, render), Replacements(all, ctx, contexts, render);
    assert forall a :: a in found <==> a in multiset(found);
    assert forall a :: a in all <==> a in multiset(all);
    ReplacementsSubset(found, all, ctx, contexts, render);
    ReplacementsSubset(all, found, ctx, contexts, render);
    if x.Ok? {
      ReplacementsApplicable(src, body, ctx, contexts, render);
      FoundApplicable(src, body, found, ctx, contexts, render);
      FindingOrderIrrelevant(x.value, y.value, |src|);
    }
  }

  lemma ReplacementsSubset(xs: seq<Attribute>, ys: seq<Attribute>, ctx: Context, contexts: map<nat, Context>,
                           render: Value -> string)
    requires forall a :: a in xs ==> a in ys
    ensures var x, y := Replacements(xs, ctx, contexts, render), Replacements(ys, ctx, contexts, render);
            y.Ok? ==> x.Ok? && Elements(x.value) <= Elements(y.value)
  {
    if Replacements(ys, ctx, contexts, render).Err? {
      return;
    }
    ReplacementsByIndex(xs, ctx, contexts, render);
    ReplacementsByIndex(ys, ctx, contexts, render);
    forall i | 0 <= i < |xs| ensures Eval(xs[i].expr, ScopeOf(xs[i], ctx, contexts)).Ok? {
      assert xs[i] in ys;
    }
    var x, y := Replacements(xs, ctx, contexts, render).value, Replacements(ys, ctx, contexts, render).value;
    forall edit | edit in x ensures edit in y {
      var i :| 0 <= i < |x| && x[i] == edit;
      assert xs[i] in ys;
      var j :| 0 <= j < |ys| && ys[j] == xs[i];
      assert y[j] == x[i];
    }
  }

  lemma FoundApplicable(src: string, body: Body, found: seq<Attribute>, ctx: Context, contexts: map<nat, Context>,
                        render: Value -> string)
    requires WellRanged(src, body) && multiset(found) == multiset(WithFile(AllAttributes(body)))
    requires Replacements(found, ctx, contexts, render).Ok?
    ensures Applicable(Replacements(found, ctx, contexts, render).value, |src|)
  {
    var edits := Replacements(found, ctx, contexts, render).value;
    ReplacementsByIndex(found, ctx, contexts, render);
    WithFileMembers(AllAttributes(body));
    WithFileDistinct(src, body);
    forall i | 0 <= i < |found| ensures found[i] in AllAttributes(body) {
      assert found[i] in multiset(found);
    }
    forall i, j | 0 <= i < j < |edits| ensures Disjoint(edits[i], edits[j]) {
      PermutedDistinctly(found, WithFile(AllAttributes(body)), i, j);
      AttributesDisjoint(src, body, found[i], found[j]);
    }
    forall i | 0 <= i < |edits| ensures edits[i].start < edits[i].end <= |src| {
      var k :| 0 <= k < |AllAttributes(body)| && AllAttributes(body)[k] == found[i];
    }
  }

  lemma WithFileDistinct(src: string, body: Body)
    requires WellRanged(src, body)
    ensures NoDuplicates(WithFile(AllAttributes(body)))
  {
    WithFileDisjoint(AllAttributes(body), |src|);
    var found := WithFile(AllAttributes(body));
    forall i, j | 0 <= i < j < |found| ensures found[i] != found[j] {
      assert Apart(found[i], found[j]);
    }
  }

  lemma PermutedDistinctly(xs: seq<Attribute>, ys: seq<Attribute>, i: nat, j: nat)
    requires multiset(xs) == multiset(ys) && NoDuplicates(ys) && i < j < |xs|
    ensures xs[i] != xs[j]
  {
    assert |xs| == |multiset(xs)| == |multiset(ys)| == |ys|;
    NoDuplicatesCardinality(ys);
    forall a ensures a in xs <==> a in ys {
      assert a in xs <==> a in multiset(xs);
      assert a in ys <==> a in multiset(ys);
    }
    assert Elements(xs) == Elements(ys);
    ElementsCardinality(xs);
  }

  // A whole bundle file.

  function BundleScope(locals: map<string, Value>, arch: string, files: map<string, string>): Context {
    Context(locals, arch, Some(files))
  }

  /** The scope of an expression of the file: that of its local, or all locals for any other attribute. */
  function ScopeIn(blocks: seq<Block>, locals: map<string, Value>, arch: string, files: map<string, string>,
                   a: Attribute)
    : Context
  {
    if a in LocalAttributes(blocks) then OwnScope(LocalsOrder(blocks), locals, arch, Some(files), a.name)
    else BundleScope(locals, arch, files)
  }

  lemma DistinctRangesStarts(src: string, body: Body)
    requires WellRanged(src, body)
    ensures DistinctStarts(AllAttributes(body)) && DistinctStarts(LocalAttributes(body.blocks))
  {
    var attributes := AllAttributes(body);
    forall i, j | 0 <= i < j < |attributes| ensures attributes[i].start != attributes[j].start {
      assert Apart(attributes[i], attributes[j]);
    }
    forall a, b | a in attributes && b in attributes && a.start == b.start ensures a == b {
      var i :| 0 <= i < |attributes| && attributes[i] == a;
      var j :| 0 <= j < |attributes| && attributes[j] == b;
      assert !(i < j) && !(j < i);
    }
    LocalsAreAttributes(body.blocks);
  }

  /** The contexts that extraction hands on are looked up by position, and give every expression its scope. */
  lemma ContextFound(src: string, body: Body, arch: string, files: map<string, string>, e: Extracted, a: Attribute)
    requires WellRanged(src, body) && ExtractionHolds(body.blocks, arch, Some(files), e) && a in AllAttributes(body)
    ensures ScopeOf(a, BundleScope(e.locals, arch, files), e.contexts) == ScopeIn(body.blocks, e.locals, arch, files, a)
  {
    LocalsAreAttributes(body.blocks);
    DistinctRangesStarts(src, body);
    if a.start in e.contexts {
      var l :| l in LocalAttributes(body.blocks) && l.start == a.start;
      assert l == a;
    }
  }

  /** The locals can be evaluated, and so can every expression that calls file(), each in its scope. */
  ghost predicate Materializable(body: Body, arch: string, files: map<string, string>) {
    && WellFormed(body.blocks) && LocalValues(body.blocks, arch, Some(files)).Ok?
    && var locals := LocalValues(body.blocks, arch, Some(files)).value;
       forall a :: a in AllAttributes(body) && ContainsFile(a.expr) ==>
         Eval(a.expr, ScopeIn(body.blocks, locals, arch, files, a)).Ok?
  }

  function FileEdits(body: Body, arch: string, files: map<string, string>, render: Value -> string, e: Extracted)
    : Result<seq<Edit>, EvalError>
  {
    Replacements(WithFile(AllAttributes(body)), BundleScope(e.locals, arch, files), e.contexts, render)
  }

  /** What materialization produces: the values of all expressions that call file(), each in the context it was
      extracted with, put in at once. */
  ghost predicate MaterializesTo(src: string, body: Body, arch: string, files: map<string, string>,
                                 render: Value -> string, e: Extracted, out: string) {
    var edits := FileEdits(body, arch, files, render, e);
    && ExtractionHolds(body.blocks, arch, Some(files), e)
    && edits.Ok? && Ascending(Sort(Earlier, edits.value), |src|)
    && out == Substitute(src, Sort(Earlier, edits.value))
  }

  lemma EditsEvaluate(attributes: seq<Attribute>, ctx: Context, contexts: map<nat, Context>, render: Value -> string)
    ensures Replacements(WithFile(attributes), ctx, contexts, render).Ok? <==>
            forall a :: a in attributes && ContainsFile(a.expr) ==> Eval(a.expr, ScopeOf(a, ctx, contexts)).Ok?
  {
    var found := WithFile(attributes);
    WithFileMembers(attributes);
    ReplacementsByIndex(found, ctx, contexts, render);
    forall a | a in attributes && ContainsFile(a.expr) ensures exists i :: 0 <= i < |found| && found[i] == a {
      assert a in found;
    }
    assert forall i :: 0 <= i < |found| ==> found[i] in found;
  }

  lemma FileEditsExist(src: string, body: Body, arch: string, files: map<string, string>, render: Value -> string,
                       e: Extracted)
    requires WellRanged(src, body) && ExtractionHolds(body.blocks, arch, Some(files), e)
    ensures FileEdits(body, arch, files, render, e).Ok? <==> Materializable(body, arch, files)
  {
    EditsEvaluate(AllAttributes(body), BundleScope(e.locals, arch, files), e.contexts, render);
    forall a | a in AllAttributes(body) { ContextFound(src, body, arch, files, e, a); }
  }

  /** Materialization succeeds exactly when everything it needs has a value, with bare locals and without. */
  method MaterializeBundleFileCalls(src: string, body: Body, arch: string, files: map<string, string>,
                                    render: Value -> string)
    returns (r: Result<string, MaterializeError>)
    requires WellRanged(src, body)
    ensures r.Ok? <==> Materializable(body, arch, files)
    ensures r.Ok? ==> exists e :: MaterializesTo(src, body, arch, files, render, e, r.value)
  {
    DistinctRangesStarts(src, body);
    var extracted := ExtractLocals(body.blocks, arch, Some(files));
    if extracted.Err? {
      return Err(BadLocals(extracted.error));
    }
    var e := extracted.value;
    FileEditsExist(src, body, arch, files, render, e);
    var out := MaterializeFileCallExpressions(src, body, BundleScope(e.locals, arch, files), e.contexts, render);
    if out.Err? {
      return Err(BadExpression(out.error));
    }
    assert MaterializesTo(src, body, arch, files, render, e, out.value);
    return Ok(out.value);
  }

  /** Whenever the locals have values there is an extraction... */
  lemma ExtractionExists(blocks: seq<Block>, arch: string, files: Option<map<string, string>>) returns (e: Extracted)
    requires WellFormed(blocks) && LocalValues(blocks, arch, files).Ok? && DistinctStarts(LocalAttributes(blocks))
    ensures ExtractionHolds(blocks, arch, files, e)
  {
    LocalsOrderEvaluates(blocks);
    var locals, attributes := LocalValues(blocks, arch, files).value, LocalAttributes(blocks);
    var order := LocalsOrder(blocks);
    e := Extracted(locals, map a | a in attributes :: a.start := OwnScope(order, locals, arch, files, a.name));
    forall p ensures p in e.contexts <==> exists a :: a in attributes && a.start == p {
    }
  }

  /** ...and whenever a file is materializable there is a result. */
  lemma MaterializationExists(src: string, body: Body, arch: string, files: map<string, string>,
                              render: Value -> string)
    returns (e: Extracted, out: string)
    requires WellRanged(src, body) && Materializable(body, arch, files)
    ensures MaterializesTo(src, body, arch, files, render, e, out)
  {
    DistinctRangesStarts(src, body);
    e := ExtractionExists(body.blocks, arch, Some(files));
    FileEditsExist(src, body, arch, files, render, e);
    ReplacementsApplicable(src, body, BundleScope(e.locals, arch, files), e.contexts, render);
    SortedIsAscending(FileEdits(body, arch, files, render, e).value, |src|);
    out := Substitute(src, Sort(Earlier, FileEdits(body, arch, files, render, e).value));
  }
}
