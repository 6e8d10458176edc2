/** Positions inside expressions and bodies, and what the traversals of internal/bundle/expressions.go find by them. */
module Occurrences {
  import opened Wrappers
  import opened Expressions
  import opened BundleSource

  /** The direct subexpressions from left to right. */
  function Children(e: Expr): seq<Expr> {
    match e
    case Literal(_) => []
    case Local(_) => []
    case WholeLocal => []
    case SysArch => []
    case Field(base, _) => [base]
    case File(path) => [path]
    case Concat(left, right) => [left, right]
    case Conditional(cond, ifTrue, ifFalse) => [cond, ifTrue, ifFalse]
  }

  /** The node one gets to by descending into the children with the given indices. */
  function NodeAt(e: Expr, position: seq<nat>): Option<Expr>
    decreases |position|
  {
    if position == [] then Some(e)
    else if position[0] < |Children(e)| then NodeAt(Children(e)[position[0]], position[1..])
    else None
  }

  ghost predicate Occurs(e: Expr, node: Expr) {
    exists position :: NodeAt(e, position) == Some(node)
  }

  /** Some node of the expression is a call of file. */
  ghost predicate CallsFile(e: Expr) {
    exists path :: Occurs(e, File(path))
  }

  lemma OccursInChild(e: Expr, k: nat, node: Expr)
    requires k < |Children(e)| && Occurs(Children(e)[k], node)
    ensures Occurs(e, node)
  {
    var position :| NodeAt(Children(e)[k], position) == Some(node);
    assert ([k] + position)[1..] == position;
    assert NodeAt(e, [k] + position) == Some(node);
  }

  lemma OccursItself(e: Expr)
    ensures Occurs(e, e)
  {
    assert NodeAt(e, []) == Some(e);
  }

  /** A node is the expression itself or stands in one of its children. */
  lemma OccursBelow(e: Expr, node: Expr)
    ensures Occurs(e, node) <==> e == node || exists k: nat :: k < |Children(e)| && Occurs(Children(e)[k], node)
  {
    OccursItself(e);
    if Occurs(e, node) && e != node {
      var position :| NodeAt(e, position) == Some(node);
      assert NodeAt(Children(e)[position[0]], position[1..]) == Some(node);
    }
    if k: nat :| k < |Children(e)| && Occurs(Children(e)[k], node) {
      OccursInChild(e, k, node);
    }
  }

  lemma CallsFileBelow(e: Expr)
    ensures CallsFile(e) <==> e.File? || exists k: nat :: k < |Children(e)| && CallsFile(Children(e)[k])
  {
    if CallsFile(e) {
      var path :| Occurs(e, File(path));
      OccursBelow(e, File(path));
    }
    if e.File? {
      OccursItself(e);
    }
    if k: nat :| k < |Children(e)| && CallsFile(Children(e)[k]) {
      var path :| Occurs(Children(e)[k], File(path));
      OccursInChild(e, k, File(path));
    }
  }

  /** The test for a file() call answers yes exactly when some node of the expression, at any depth, is such a call. */
  lemma {:induction false} ContainsFileMeaning(e: Expr)
    ensures ContainsFile(e) <==> CallsFile(e)
  {
    CallsFileBelow(e);
    match e
    case Field(base, _) =>
      ContainsFileMeaning(base);
      assert Children(e)[0] == base;
    case File(_) =>
    case Concat(left, right) =>
      ContainsFileMeaning(left);
      ContainsFileMeaning(right);
      assert Children(e)[0] == left && Children(e)[1] == right;
    case Conditional(cond, ifTrue, ifFalse) =>
      ContainsFileMeaning(cond);
      ContainsFileMeaning(ifTrue);
      ContainsFileMeaning(ifFalse);
      assert Children(e)[0] == cond && Children(e)[1] == ifTrue && Children(e)[2] == ifFalse;
    case _ =>
  }

  /** How a reference is written. */
  function ReferenceNode(reference: Option<string>): Expr {
    if reference.Some? then Local(reference.value) else WholeLocal
  }

  /** The references of an expression are exactly the local nodes in it: a name is mentioned when local.name stands
      somewhere in it, and references are by name only when local never stands on its own. */
  lemma {:induction false} ReferencesMeaning(e: Expr, reference: Option<string>)
    ensures reference in References(e) <==> Occurs(e, ReferenceNode(reference))
  {
    OccursBelow(e, ReferenceNode(reference));
    match e
    case Field(base, _) =>
      ReferencesMeaning(base, reference);
      assert Children(e)[0] == base;
    case File(path) =>
      ReferencesMeaning(path, reference);
      assert Children(e)[0] == path;
    case Concat(left, right) =>
      ReferencesMeaning(left, reference);
      ReferencesMeaning(right, reference);
      assert Children(e)[0] == left && Children(e)[1] == right;
    case Conditional(cond, ifTrue, ifFalse) =>
      ReferencesMeaning(cond, reference);
      ReferencesMeaning(ifTrue, reference);
      ReferencesMeaning(ifFalse, reference);
      assert Children(e)[0] == cond && Children(e)[1] == ifTrue && Children(e)[2] == ifFalse;
    case _ =>
  }

  /** The dependencies of a local are the names n for which local.n stands in its expression, each once. */
  lemma DependencyNamesMeaning(e: Expr)
    ensures forall n :: n in DependencyNames(e) <==> Occurs(e, Local(n))
    ensures NamedOnly(e) <==> !Occurs(e, WholeLocal)
  {
    FirstUsesMembers(References(e));
    forall n ensures Some(n) in References(e) <==> Occurs(e, Local(n)) {
      ReferencesMeaning(e, Some(n));
    }
    ReferencesMeaning(e, None);
  }

  // Attributes inside bodies.

  /** The body one gets to by entering the blocks with the given indices. */
  function BodyAt(body: Body, position: seq<nat>): Option<Body>
    decreases |position|
  {
    if position == [] then Some(body)
    else if position[0] < |body.blocks| then BodyAt(body.blocks[position[0]].body, position[1..])
    else None
  }

  ghost predicate HoldsAt(body: Body, position: seq<nat>, a: Attribute) {
    BodyAt(body, position).Some? && a in BodyAt(body, position).value.attributes
  }

  /** The attribute stands in the body or, at any depth, in a block of it. */
  ghost predicate Holds(body: Body, a: Attribute) {
    exists position :: HoldsAt(body, position, a)
  }

  lemma {:induction false} BlockAttributesMembers(blocks: seq<Block>, a: Attribute)
    ensures a in BlockAttributes(blocks) <==>
            exists k :: 0 <= k < |blocks| && a in AllAttributes(blocks[k].body)
  {
    if blocks != [] {
      var init := blocks[..|blocks| - 1];
      BlockAttributesMembers(init, a);
      if a in BlockAttributes(init) {
        var k :| 0 <= k < |init| && a in AllAttributes(init[k].body);
        assert blocks[k] == init[k];
      }
      if k :| 0 <= k < |blocks| && a in AllAttributes(blocks[k].body) {
        if k < |init| {
          assert init[k] == blocks[k];
        }
      }
    }
  }

  lemma {:induction false} FoundAt(body: Body, position: seq<nat>, a: Attribute)
    requires HoldsAt(body, position, a)
    ensures a in AllAttributes(body)
    decreases |position|
  {
    if position != [] {
      FoundAt(body.blocks[position[0]].body, position[1..], a);
      BlockAttributesMembers(body.blocks, a);
    }
  }

  lemma {:induction false} PositionOf(body: Body, a: Attribute) returns (position: seq<nat>)
    requires a in AllAttributes(body)
    ensures HoldsAt(body, position, a)
    decreases body
  {
    if a in body.attributes {
      position := [];
    } else {
      BlockAttributesMembers(body.blocks, a);
      var k :| 0 <= k < |body.blocks| && a in AllAttributes(body.blocks[k].body);
      var rest := PositionOf(body.blocks[k].body, a);
      position := [k] + rest;
      assert position[1..] == rest;
    }
  }

  /** The attributes visited are exactly those that stand in the body or in its blocks at any depth. */
  lemma AllAttributesMeaning(body: Body, a: Attribute)
    ensures a in AllAttributes(body) <==> Holds(body, a)
  {
    if a in AllAttributes(body) {
      var position := PositionOf(body, a);
    }
    if position :| HoldsAt(body, position, a) {
      FoundAt(body, position, a);
    }
  }

  /** The locals are the attributes that stand directly in the top-level blocks of type locals, and no others. */
  lemma {:induction false} LocalAttributesMeaning(blocks: seq<Block>, a: Attribute)
    ensures a in LocalAttributes(blocks) <==>
            exists k :: 0 <= k < |blocks| && blocks[k].kind == "locals" && a in blocks[k].body.attributes
  {
    if blocks != [] {
      var init := blocks[..|blocks| - 1];
      LocalAttributesMeaning(init, a);
      if a in LocalAttributes(init) {
        var k :| 0 <= k < |init| && init[k].kind == "locals" && a in init[k].body.attributes;
        assert blocks[k] == init[k];
      }
      if k :| 0 <= k < |blocks| && blocks[k].kind == "locals" && a in blocks[k].body.attributes {
        if k < |init| {
          assert init[k] == blocks[k];
        }
      }
    }
  }
}
