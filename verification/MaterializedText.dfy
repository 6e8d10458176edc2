/** The text and the structure of a materialized bundle file. */
module MaterializedText {
  import opened Wrappers
  import opened Sequences
  import opened Ordering
  import opened Expressions
  import opened BundleSource
  import opened Occurrences
  import opened TextEdits
  import opened Materialization

  /** A rewriting of a text: the scopes of its expressions, the edits from first to last, and how values are written. */
  datatype Rewriting =
    Rewriting(src: string, ctx: Context, contexts: map<nat, Context>, edits: seq<Edit>, render: Value -> string)

  /** The rewriting that materialization makes. */
  function RewritingOf(src: string, body: Body, arch: string, files: map<string, string>, render: Value -> string,
                       e: Extracted)
    : Rewriting
  {
    var edits := FileEdits(body, arch, files, render, e);
    Rewriting(src, BundleScope(e.locals, arch, files), e.contexts,
              if edits.Ok? then Sort(Earlier, edits.value) else [], render)
  }

  function ValueOf(w: Rewriting, a: Attribute): Result<Value, EvalError> {
    Eval(a.expr, ScopeOf(a, w.ctx, w.contexts))
  }

  /** What stands for an expression in the new text. */
  function NewText(w: Rewriting, a: Attribute): string {
    if ContainsFile(a.expr) && ValueOf(w, a).Ok? then w.render(ValueOf(w, a).value)
    else if a.start <= a.end <= |w.src| then w.src[a.start..a.end]
    else ""
  }

  /** The edits are those of the expressions that call file(). */
  ghost predicate EditsMatch(w: Rewriting, attributes: seq<Attribute>) {
    && Ascending(w.edits, |w.src|)
    && (forall a :: a in attributes && ContainsFile(a.expr) ==> EditOf(w, a) in w.edits)
    && (forall edit :: edit in w.edits ==> exists a :: a in attributes && ContainsFile(a.expr) && edit == EditOf(w, a))
  }

  function EditOf(w: Rewriting, a: Attribute): Edit {
    Edit(a.start, a.end, NewText(w, a))
  }

  ghost predicate EditsFound(w: Rewriting, found: seq<Attribute>, edits: seq<Edit>) {
    |edits| == |found| && forall i :: 0 <= i < |found| ==> edits[i] == EditOf(w, found[i])
  }

  lemma FoundEditsMatch(w: Rewriting, attributes: seq<Attribute>, found: seq<Attribute>, edits: seq<Edit>)
    requires EditsFound(w, found, edits) && Ascending(w.edits, |w.src|) && Elements(w.edits) == Elements(edits)
    requires forall a :: a in found <==> a in attributes && ContainsFile(a.expr)
    ensures EditsMatch(w, attributes)
  {
    forall a | a in attributes && ContainsFile(a.expr) ensures EditOf(w, a) in w.edits {
      var i :| 0 <= i < |found| && found[i] == a;
      assert edits[i] in Elements(edits);
    }
    forall edit | edit in w.edits ensures exists a :: a in attributes && ContainsFile(a.expr) && edit == EditOf(w, a) {
      assert edit in Elements(w.edits);
      var i :| 0 <= i < |edits| && edits[i] == edit;
      assert found[i] in found;
    }
  }

  lemma ReplacementsFound(src: string, body: Body, arch: string, files: map<string, string>, render: Value -> string,
                          e: Extracted)
    requires FileEdits(body, arch, files, render, e).Ok?
    ensures EditsFound(RewritingOf(src, body, arch, files, render, e), WithFile(AllAttributes(body)),
                       FileEdits(body, arch, files, render, e).value)
  {
    var found := WithFile(AllAttributes(body));
    WithFileMembers(AllAttributes(body));
    ReplacementsByIndex(found, BundleScope(e.locals, arch, files), e.contexts, render);
    forall i | 0 <= i < |found| ensures ContainsFile(found[i].expr) {
      assert found[i] in found;
    }
  }

  lemma MaterializingEdits(src: string, body: Body, arch: string, files: map<string, string>, render: Value -> string,
                           e: Extracted, out: string)
    requires WellRanged(src, body) && MaterializesTo(src, body, arch, files, render, e, out)
    ensures var w := RewritingOf(src, body, arch, files, render, e);
            EditsMatch(w, AllAttributes(body)) && out == Substitute(src, w.edits)
  {
    var edits := FileEdits(body, arch, files, render, e).value;
    ReplacementsFound(src, body, arch, files, render, e);
    WithFileMembers(AllAttributes(body));
    SortElements(Earlier, edits);
    var all := AllAttributes(body);
    FoundEditsMatch(RewritingOf(src, body, arch, files, render, e), all, WithFile(all), edits);
  }

  /** Every edit misses every other attribute, and the borders of its own. */
  lemma EditsMissBorders(w: Rewriting, body: Body, a: Attribute)
    requires WellRanged(w.src, body) && EditsMatch(w, AllAttributes(body)) && a in AllAttributes(body)
    ensures Misses(w.edits, 0, a.start, a.start) && Misses(w.edits, 0, a.end, a.end)
    ensures !ContainsFile(a.expr) ==> Misses(w.edits, 0, a.start, a.end)
  {
    forall k | 0 <= k < |w.edits|
      ensures w.edits[k].end <= a.start || a.end <= w.edits[k].start || w.edits[k] == EditOf(w, a)
      ensures !ContainsFile(a.expr) ==> w.edits[k].end <= a.start || a.end <= w.edits[k].start {
      assert w.edits[k] in w.edits;
      var b :| b in AllAttributes(body) && ContainsFile(b.expr) && w.edits[k] == EditOf(w, b);
      if b != a {
        AttributesDisjoint(w.src, body, a, b);
      }
    }
  }

  /** In the result every expression's new text stands at its shifted place, and nothing there runs into the next. */
  lemma ExpressionPlaced(w: Rewriting, body: Body, a: Attribute)
    requires WellRanged(w.src, body) && EditsMatch(w, AllAttributes(body)) && a in AllAttributes(body)
    ensures ReadsAt(Substitute(w.src, w.edits), Shift(w.edits, a.start), NewText(w, a))
    ensures forall q: nat :: a.end <= q && Misses(w.edits, 0, q, q) ==>
        Shift(w.edits, a.start) + |NewText(w, a)| <= Shift(w.edits, q)
  {
    AttributeInside(w.src, body, a);
    EditsMissBorders(w, body, a);
    if ContainsFile(a.expr) {
      ReplacedText(w.src, w.edits, EditOf(w, a));
      var k :| 0 <= k < |w.edits| && w.edits[k] == EditOf(w, a);
      forall q: nat | a.end <= q && Misses(w.edits, 0, q, q)
        ensures Shift(w.edits, a.start) + |NewText(w, a)| <= Shift(w.edits, q) {
        GrowthOverEdit(w.edits, |w.src|, 0, k, q);
      }
    } else {
      UntouchedText(w.src, w.edits, a.start, a.end);
      GrowthOverText(w.edits, |w.src|, 0, a.start, a.end);
      forall q: nat | a.end <= q && Misses(w.edits, 0, q, q)
        ensures Shift(w.edits, a.start) + |NewText(w, a)| <= Shift(w.edits, q) {
        GrowthKeepsOrder(w.edits, |w.src|, 0, a.end, q);
      }
    }
  }

  lemma AttributeInside(src: string, body: Body, a: Attribute)
    requires WellRanged(src, body) && a in AllAttributes(body)
    ensures a.start < a.end <= |src|
  {
    var i :| 0 <= i < |AllAttributes(body)| && AllAttributes(body)[i] == a;
  }

  /** In the result every expression with a call of file anywhere in it reads as its rendered value, and every
      expression without one as before. */
  lemma MaterializedExpression(src: string, body: Body, arch: string, files: map<string, string>,
                               render: Value -> string, e: Extracted, out: string, a: Attribute)
    requires WellRanged(src, body) && MaterializesTo(src, body, arch, files, render, e, out) && a in AllAttributes(body)
    ensures var w := RewritingOf(src, body, arch, files, render, e);
            var value := Eval(a.expr, ScopeIn(body.blocks, e.locals, arch, files, a));
            && (CallsFile(a.expr) ==> value.Ok? && ReadsAt(out, Shift(w.edits, a.start), render(value.value)))
            && (!CallsFile(a.expr) ==>
                  a.start < a.end <= |src| && ReadsAt(out, Shift(w.edits, a.start), src[a.start..a.end]))
  {
    ContainsFileMeaning(a.expr);
    MaterializingEdits(src, body, arch, files, render, e, out);
    ExpressionPlaced(RewritingOf(src, body, arch, files, render, e), body, a);
    ContextFound(src, body, arch, files, e, a);
    FileEditsExist(src, body, arch, files, render, e);
    AttributeInside(src, body, a);
  }

  lemma FileCallValue(path: Expr, ctx: Context)
    requires Eval(File(path), ctx).Ok?
    ensures var p := Eval(path, ctx);
            && p.Ok? && p.value.Str? && ctx.files.Some? && p.value.text in ctx.files.value
            && Eval(File(path), ctx).value == Str(ctx.files.value[p.value.text])
  {
  }

  lemma PathFromArchitecture(prefix: string, ctx: Context)
    ensures Eval(Concat(Literal(Str(prefix)), SysArch), ctx) == Ok(Str(prefix + ctx.arch))
  {
    assert Eval(Literal(Str(prefix)), ctx) == Ok(Str(prefix));
  }

  lemma ScopeFacts(body: Body, locals: map<string, Value>, arch: string, files: map<string, string>, a: Attribute)
    ensures var ctx := ScopeIn(body.blocks, locals, arch, files, a);
            && ctx.arch == arch && ctx.files == Some(files)
            && (a !in LocalAttributes(body.blocks) ==> ctx.locals == locals)
  {
  }

  /** Where file() is called the result holds the contents of the file: of the one for the architecture that the bundle
      is materialized for when the path is built from sys.arch, and of the one that a local names when it is a local. */
  lemma FileCallReadsContents(src: string, body: Body, arch: string, files: map<string, string>,
                              render: Value -> string, e: Extracted, out: string, a: Attribute, prefix: string,
                              n: string)
    requires WellRanged(src, body) && MaterializesTo(src, body, arch, files, render, e, out) && a in AllAttributes(body)
    ensures var w := RewritingOf(src, body, arch, files, render, e);
            a.expr == File(Concat(Literal(Str(prefix)), SysArch)) ==>
              && prefix + arch in files
              && ReadsAt(out, Shift(w.edits, a.start), render(Str(files[prefix + arch])))
    ensures var w := RewritingOf(src, body, arch, files, render, e);
            a.expr == File(Local(n)) && a !in LocalAttributes(body.blocks) ==>
              && n in e.locals && e.locals[n].Str? && e.locals[n].text in files
              && ReadsAt(out, Shift(w.edits, a.start), render(Str(files[e.locals[n].text])))
  {
    var ctx := ScopeIn(body.blocks, e.locals, arch, files, a);
    OccursItself(a.expr);
    MaterializedExpression(src, body, arch, files, render, e, out, a);
    ScopeFacts(body, e.locals, arch, files, a);
    if a.expr == File(Concat(Literal(Str(prefix)), SysArch)) {
      FileCallValue(a.expr.path, ctx);
      PathFromArchitecture(prefix, ctx);
    } else if a.expr == File(Local(n)) && a !in LocalAttributes(body.blocks) {
      FileCallValue(a.expr.path, ctx);
    }
  }

  /** Any stretch of text that meets no file() expression is unchanged. */
  lemma MaterializedElsewhere(src: string, body: Body, arch: string, files: map<string, string>,
                              render: Value -> string, e: Extracted, out: string, s: nat, t: nat)
    requires WellRanged(src, body) && MaterializesTo(src, body, arch, files, render, e, out)
    requires s <= t <= |src|
    requires forall a :: a in AllAttributes(body) && ContainsFile(a.expr) ==> a.end <= s || t <= a.start
    ensures ReadsAt(out, Shift(RewritingOf(src, body, arch, files, render, e).edits, s), src[s..t])
  {
    var w := RewritingOf(src, body, arch, files, render, e);
    MaterializingEdits(src, body, arch, files, render, e, out);
    forall k | 0 <= k < |w.edits| ensures w.edits[k].end <= s || t <= w.edits[k].start {
      assert w.edits[k] in w.edits;
    }
    UntouchedText(src, w.edits, s, t);
  }

  // The structure of the result.

  /** The expression that stands in the rewritten text: a literal where file() was called. */
  function RewriteExpr(e: Expr, ctx: Context): Expr {
    if ContainsFile(e) && Eval(e, ctx).Ok? then Literal(Eval(e, ctx).value) else e
  }

  function NewPlace(w: Rewriting, a: Attribute): nat {
    if Shift(w.edits, a.start) >= 0 then Shift(w.edits, a.start) else 0
  }

  /** An attribute of the rewritten text, at its new place. */
  function Rewrite(w: Rewriting, a: Attribute): Attribute {
    var start := NewPlace(w, a);
    Attribute(a.name, RewriteExpr(a.expr, ScopeOf(a, w.ctx, w.contexts)), start, start + |NewText(w, a)|)
  }

  function RewriteAttributes(attributes: seq<Attribute>, w: Rewriting): seq<Attribute> {
    seq(|attributes|, i requires 0 <= i < |attributes| => Rewrite(w, attributes[i]))
  }

  function RewriteBody(body: Body, w: Rewriting): Body
    decreases body, 0
  {
    Body(RewriteAttributes(body.attributes, w), RewriteBlocks(body.blocks, w))
  }

  function RewriteBlocks(blocks: seq<Block>, w: Rewriting): (r: seq<Block>)
    ensures |r| == |blocks|
    decreases blocks
  {
    if blocks == [] then []
    else
      var last := blocks[|blocks| - 1];
      RewriteBlocks(blocks[..|blocks| - 1], w) + [Block(last.kind, RewriteBody(last.body, w))]
  }

  lemma RewriteConcat(xs: seq<Attribute>, ys: seq<Attribute>, w: Rewriting)
    ensures RewriteAttributes(xs + ys, w) == RewriteAttributes(xs, w) + RewriteAttributes(ys, w)
  {
  }

  lemma RewriteBlocksSplit(blocks: seq<Block>, w: Rewriting)
    requires blocks != []
    ensures var r, last := RewriteBlocks(blocks, w), blocks[|blocks| - 1];
            && r[..|r| - 1] == RewriteBlocks(blocks[..|blocks| - 1], w)
            && r[|r| - 1] == Block(last.kind, RewriteBody(last.body, w))
  {
  }

  lemma {:induction false} RewrittenAttributes(body: Body, w: Rewriting)
    ensures AllAttributes(RewriteBody(body, w)) == RewriteAttributes(AllAttributes(body), w)
    decreases body, 0
  {
    RewrittenBlockAttributes(body.blocks, w);
    RewriteConcat(body.attributes, BlockAttributes(body.blocks), w);
  }

  lemma {:induction false} RewrittenBlockAttributes(blocks: seq<Block>, w: Rewriting)
    ensures BlockAttributes(RewriteBlocks(blocks, w)) == RewriteAttributes(BlockAttributes(blocks), w)
    decreases blocks
  {
    if blocks != [] {
      var init, last := blocks[..|blocks| - 1], blocks[|blocks| - 1];
      RewrittenBlockAttributes(init, w);
      RewrittenAttributes(last.body, w);
      RewriteConcat(BlockAttributes(init), AllAttributes(last.body), w);
      RewriteBlocksSplit(blocks, w);
    }
  }

  lemma {:induction false} RewrittenLocals(blocks: seq<Block>, w: Rewriting)
    ensures LocalAttributes(RewriteBlocks(blocks, w)) == RewriteAttributes(LocalAttributes(blocks), w)
  {
    if blocks != [] {
      var init, last := blocks[..|blocks| - 1], blocks[|blocks| - 1];
      RewrittenLocals(init, w);
      RewriteConcat(LocalAttributes(init), if IsLocals(last) then last.body.attributes else [], w);
      RewriteBlocksSplit(blocks, w);
    }
  }

  lemma {:induction false} RewrittenBlocksFlat(blocks: seq<Block>, w: Rewriting, k: nat)
    requires NoNesting(blocks) && k < |blocks|
    ensures Flat(RewriteBlocks(blocks, w)[k])
  {
    RewriteBlocksSplit(blocks, w);
    var init, r := blocks[..|blocks| - 1], RewriteBlocks(blocks, w);
    assert Flat(blocks[|blocks| - 1]);
    if k < |init| {
      assert forall i :: 0 <= i < |init| ==> init[i] == blocks[i];
      RewrittenBlocksFlat(init, w, k);
      assert r[k] == r[..|r| - 1][k];
    } else {
      assert r[k] == r[|r| - 1];
      assert RewriteBlocks([], w) == [];
    }
  }

  // Text and structure agree.

  ghost predicate RendersText(render: Value -> string) {
    forall v :: render(v) != ""
  }

  lemma PlacesInside(w: Rewriting, body: Body, a: Attribute)
    requires WellRanged(w.src, body) && EditsMatch(w, AllAttributes(body)) && RendersText(w.render)
    requires a in AllAttributes(body) && (ContainsFile(a.expr) ==> ValueOf(w, a).Ok?)
    ensures var out, b := Substitute(w.src, w.edits), Rewrite(w, a);
            b.start < b.end <= |out| && out[b.start..b.end] == NewText(w, a)
  {
    AttributeInside(w.src, body, a);
    EditsMissBorders(w, body, a);
    ExpressionPlaced(w, body, a);
    ShiftNonnegative(w.edits, |w.src|, a.start);
  }

  /** Expressions keep their order. */
  lemma PlacesOrdered(w: Rewriting, body: Body, a: Attribute, b: Attribute)
    requires WellRanged(w.src, body) && EditsMatch(w, AllAttributes(body))
    requires a in AllAttributes(body) && b in AllAttributes(body) && a.end <= b.start
    ensures Rewrite(w, a).end <= Rewrite(w, b).start
  {
    EditsMissBorders(w, body, a);
    EditsMissBorders(w, body, b);
    ExpressionPlaced(w, body, a);
    ShiftNonnegative(w.edits, |w.src|, a.start);
    ShiftNonnegative(w.edits, |w.src|, b.start);
  }

  ghost predicate AllEvaluate(w: Rewriting, attributes: seq<Attribute>) {
    forall a :: a in attributes && ContainsFile(a.expr) ==> ValueOf(w, a).Ok?
  }

  lemma RewrittenRanges(w: Rewriting, body: Body)
    requires WellRanged(w.src, body) && EditsMatch(w, AllAttributes(body)) && RendersText(w.render)
    requires AllEvaluate(w, AllAttributes(body))
    ensures WellRanged(Substitute(w.src, w.edits), RewriteBody(body, w))
  {
    var all := AllAttributes(body);
    RewrittenAttributes(body, w);
    forall i | 0 <= i < |all|
      ensures Rewrite(w, all[i]).start < Rewrite(w, all[i]).end <= |Substitute(w.src, w.edits)| {
      assert all[i] in all;
      PlacesInside(w, body, all[i]);
    }
    forall i, j | 0 <= i < j < |all| ensures Apart(Rewrite(w, all[i]), Rewrite(w, all[j])) {
      assert all[i] in all && all[j] in all && Apart(all[i], all[j]);
      if all[i].end <= all[j].start {
        PlacesOrdered(w, body, all[i], all[j]);
      } else {
        PlacesOrdered(w, body, all[j], all[i]);
      }
    }
  }

  lemma MaterializedEvaluates(src: string, body: Body, arch: string, files: map<string, string>,
                              render: Value -> string, e: Extracted, out: string)
    requires WellRanged(src, body) && MaterializesTo(src, body, arch, files, render, e, out)
    ensures AllEvaluate(RewritingOf(src, body, arch, files, render, e), AllAttributes(body))
  {
    FileEditsExist(src, body, arch, files, render, e);
    forall a | a in AllAttributes(body) { ContextFound(src, body, arch, files, e, a); }
  }

  /** The rewritten structure describes the rewritten text: its ranges are nonempty, inside it and disjoint, and each
      holds the new text of its expression. */
  lemma TextMatchesStructure(src: string, body: Body, arch: string, files: map<string, string>, render: Value -> string,
                             e: Extracted, out: string)
    requires WellRanged(src, body) && MaterializesTo(src, body, arch, files, render, e, out) && RendersText(render)
    ensures var w := RewritingOf(src, body, arch, files, render, e);
            && WellRanged(out, RewriteBody(body, w))
            && AllAttributes(RewriteBody(body, w)) == RewriteAttributes(AllAttributes(body), w)
            && (forall a :: a in AllAttributes(body) ==>
                  && Rewrite(w, a).start <= Rewrite(w, a).end <= |out|
                  && out[Rewrite(w, a).start..Rewrite(w, a).end] == NewText(w, a))
  {
    var w := RewritingOf(src, body, arch, files, render, e);
    MaterializingEdits(src, body, arch, files, render, e, out);
    MaterializedEvaluates(src, body, arch, files, render, e, out);
    RewrittenRanges(w, body);
    RewrittenAttributes(body, w);
    forall a | a in AllAttributes(body) { PlacesInside(w, body, a); }
  }

  lemma {:induction false} WithFileNone(attributes: seq<Attribute>)
    requires forall a :: a in attributes ==> !ContainsFile(a.expr)
    ensures WithFile(attributes) == []
  {
    if attributes != [] {
      WithFileNone(attributes[..|attributes| - 1]);
    }
  }

  /** A file without file() calls is its own materialization. */
  lemma NothingToMaterialize(src: string, body: Body, arch: string, files: map<string, string>, render: Value -> string,
                             e: Extracted, out: string)
    requires MaterializesTo(src, body, arch, files, render, e, out)
    requires forall a :: a in AllAttributes(body) ==> !ContainsFile(a.expr)
    ensures out == src
  {
    WithFileNone(AllAttributes(body));
    assert src[0..] == src;
  }

  lemma NoFileLeft(src: string, body: Body, arch: string, files: map<string, string>, render: Value -> string,
                   e: Extracted, out: string)
    requires WellRanged(src, body) && MaterializesTo(src, body, arch, files, render, e, out)
    ensures forall b :: b in AllAttributes(RewriteBody(body, RewritingOf(src, body, arch, files, render, e))) ==>
              !ContainsFile(b.expr)
  {
    var w, all := RewritingOf(src, body, arch, files, render, e), AllAttributes(body);
    MaterializedEvaluates(src, body, arch, files, render, e, out);
    RewrittenAttributes(body, w);
    forall b | b in RewriteAttributes(all, w) ensures !ContainsFile(b.expr) {
      var i :| 0 <= i < |all| && RewriteAttributes(all, w)[i] == b;
      assert all[i] in all && b == Rewrite(w, all[i]);
    }
  }

  /** Materializing what was materialized changes nothing. */
  lemma MaterializingTwice(src: string, body: Body, arch: string, files: map<string, string>,
                           files': map<string, string>, render: Value -> string, e: Extracted, out: string,
                           e': Extracted, out': string)
    requires WellRanged(src, body) && MaterializesTo(src, body, arch, files, render, e, out)
    requires MaterializesTo(out, RewriteBody(body, RewritingOf(src, body, arch, files, render, e)), arch, files',
                            render, e', out')
    ensures out' == out
  {
    NoFileLeft(src, body, arch, files, render, e, out);
    var again := RewriteBody(body, RewritingOf(src, body, arch, files, render, e));
    NothingToMaterialize(out, again, arch, files', render, e', out');
  }
}
