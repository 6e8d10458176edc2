/** Incremental evaluation of local definitions: it solves the definitions as equations, in any order. */
module LocalEvaluation {
  import opened Wrappers
  import opened Sequences
  import opened Walks
  import opened Expressions

  type Definitions = map<string, Expr>

  ghost predicate AllNamedOnly(defs: Definitions) {
    forall n :: n in defs ==> NamedOnly(defs[n])
  }

  /** g lists under every defined name the names its expression mentions. */
  ghost predicate DependencyGraph(defs: Definitions, g: Graph) {
    && g.Keys == defs.Keys
    && forall n, d :: n in defs ==> (d in g[n] <==> Mentions(defs[n], d))
  }

  /** sol gives every local the value of its own expression under sol. */
  ghost predicate Solves(defs: Definitions, arch: string, files: Option<map<string, string>>, sol: map<string, Value>) {
    && sol.Keys == defs.Keys
    && forall n :: n in defs ==> Eval(defs[n], Context(sol, arch, files)) == Ok(sol[n])
  }

  /** A listing of all locals in which everything an expression mentions comes earlier. */
  ghost predicate EvaluationOrder(defs: Definitions, order: seq<string>) {
    && NoDuplicates(order) && Elements(order) == defs.Keys
    && forall i :: 0 <= i < |order| ==> MentionsEarlier(defs, order, i)
  }

  ghost predicate MentionsEarlier(defs: Definitions, order: seq<string>, i: nat)
    requires i < |order|
  {
    order[i] in defs && forall d :: Mentions(defs[order[i]], d) ==> d in order[..i]
  }

  /** The values obtained by evaluating one local after the other, each in the scope of those before it. */
  function EvaluateInOrder(defs: Definitions, arch: string, files: Option<map<string, string>>, order: seq<string>)
    : (r: Result<map<string, Value>, string>)
    requires forall n :: n in order ==> n in defs
    ensures r.Ok? ==> r.value.Keys == Elements(order)
  {
    if order == [] then Ok(map[])
    else
      var last := order[|order| - 1];
      var before := EvaluateInOrder(defs, arch, files, order[..|order| - 1]);
      assert Elements(order) == Elements(order[..|order| - 1]) + {last};
      if before.Err? then before
      else match Eval(defs[last], Context(before.value, arch, files))
        case Err(_) => Err(last)
        case Ok(v) => Ok(before.value[last := v])
  }

  /** The values of some of the locals. */
  function Restrict(values: map<string, Value>, names: set<string>): map<string, Value> {
    map n | n in values && n in names :: values[n]
  }

  lemma NotEarlier(order: seq<string>, k: nat, i: nat)
    requires NoDuplicates(order) && k <= i < |order|
    ensures order[i] !in Elements(order[..k])
  {
  }

  lemma RestrictOneMore(values: map<string, Value>, names: set<string>, n: string)
    requires n in values
    ensures Restrict(values, names + {n}) == Restrict(values, names)[n := values[n]]
  {
  }

  lemma RestrictUpdated(values: map<string, Value>, last: string, v: Value, names: set<string>)
    requires last !in names
    ensures Restrict(values[last := v], names) == Restrict(values, names)
  {
  }

  /** The scope of a local is the final values of the locals before it. */
  lemma {:induction false} PrefixEvaluation(defs: Definitions, arch: string, files: Option<map<string, string>>,
                                            order: seq<string>, k: nat)
    requires forall n :: n in order ==> n in defs
    requires k <= |order| && EvaluateInOrder(defs, arch, files, order).Ok? && NoDuplicates(order)
    ensures EvaluateInOrder(defs, arch, files, order[..k])
         == Ok(Restrict(EvaluateInOrder(defs, arch, files, order).value, Elements(order[..k])))
  {
    var sol := EvaluateInOrder(defs, arch, files, order).value;
    if k == |order| {
      assert order[..k] == order;
      assert sol == Restrict(sol, Elements(order));
    } else {
      var init, last := order[..|order| - 1], order[|order| - 1];
      assert init[..k] == order[..k];
      PrefixEvaluation(defs, arch, files, init, k);
      NotEarlier(order, k, |order| - 1);
      RestrictUpdated(EvaluateInOrder(defs, arch, files, init).value, last, sol[last], Elements(order[..k]));
    }
  }

  /** The names listed before the last listing of n. */
  function Before(order: seq<string>, n: string): set<string> {
    if order == [] then {}
    else if order[|order| - 1] == n then Elements(order[..|order| - 1])
    else Before(order[..|order| - 1], n)
  }

  lemma {:induction false} BeforeAt(order: seq<string>, i: nat)
    requires NoDuplicates(order) && i < |order|
    ensures Before(order, order[i]) == Elements(order[..i])
  {
    if i < |order| - 1 {
      var init := order[..|order| - 1];
      BeforeAt(init, i);
      assert init[..i] == order[..i] && init[i] == order[i];
    }
  }

  /** The scope in which a local is evaluated: the values of the locals ordered before it. */
  function OwnScope(order: seq<string>, locals: map<string, Value>, arch: string, files: Option<map<string, string>>,
                    n: string)
    : Context
  {
    Context(Restrict(locals, Before(order, n)), arch, files)
  }

  /** Every local has the value of its expression in the scope of the locals before it. */
  lemma ValueInOwnScope(defs: Definitions, arch: string, files: Option<map<string, string>>, order: seq<string>, i: nat)
    requires forall n :: n in order ==> n in defs
    requires i < |order| && EvaluateInOrder(defs, arch, files, order).Ok? && NoDuplicates(order)
    ensures var sol := EvaluateInOrder(defs, arch, files, order).value;
            order[i] in sol
            && Eval(defs[order[i]], Context(Restrict(sol, Elements(order[..i])), arch, files)) == Ok(sol[order[i]])
  {
    var sol := EvaluateInOrder(defs, arch, files, order).value;
    PrefixEvaluation(defs, arch, files, order, i);
    PrefixEvaluation(defs, arch, files, order, i + 1);
    assert order[..i + 1][..i] == order[..i] && order[..i + 1][i] == order[i];
    assert order[i] in Elements(order[..i + 1]);
    assert order[i] in Restrict(sol, Elements(order[..i + 1]));
  }

  /** Adding later locals never changes the value of an earlier expression that names what it references. */
  lemma LaterLocalsIrrelevant(defs: Definitions, arch: string, files: Option<map<string, string>>, order: seq<string>,
                              i: nat, sol: map<string, Value>)
    requires EvaluationOrder(defs, order) && i < |order| && order[i] in defs && NamedOnly(defs[order[i]])
    requires Elements(order[..i]) <= sol.Keys
    ensures Eval(defs[order[i]], Context(sol, arch, files)) ==
            Eval(defs[order[i]], Context(Restrict(sol, Elements(order[..i])), arch, files))
  {
    var scope := Restrict(sol, Elements(order[..i]));
    assert MentionsEarlier(defs, order, i);
    forall d | Mentions(defs[order[i]], d) ensures AgreeOn(sol, scope, d) {
      assert d in Elements(order[..i]);
    }
    EvalAgrees(defs[order[i]], Context(sol, arch, files), Context(scope, arch, files));
  }

  /** Incremental evaluation along any evaluation order gives every local that references others by name only the
      value of its expression in the scope of all locals; when all do, it solves the equations. */
  lemma EvaluationSolves(defs: Definitions, arch: string, files: Option<map<string, string>>, order: seq<string>)
    requires EvaluationOrder(defs, order) && forall n :: n in order ==> n in defs
    requires EvaluateInOrder(defs, arch, files, order).Ok?
    ensures var sol := EvaluateInOrder(defs, arch, files, order).value;
            && sol.Keys == defs.Keys
            && (forall n :: n in defs && NamedOnly(defs[n]) ==> Eval(defs[n], Context(sol, arch, files)) == Ok(sol[n]))
            && (AllNamedOnly(defs) ==> Solves(defs, arch, files, sol))
  {
    var sol := EvaluateInOrder(defs, arch, files, order).value;
    forall n | n in defs && NamedOnly(defs[n]) ensures Eval(defs[n], Context(sol, arch, files)) == Ok(sol[n]) {
      assert n in Elements(order);
      var i :| 0 <= i < |order| && order[i] == n;
      ValueInOwnScope(defs, arch, files, order, i);
      assert forall m :: m in order[..i] ==> m in order;
      LaterLocalsIrrelevant(defs, arch, files, order, i, sol);
    }
  }

  /** The names reference each other by name, and nothing else. */
  ghost predicate NamesAlone(defs: Definitions, names: set<string>) {
    names <= defs.Keys &&
    forall n :: n in names ==> NamedOnly(defs[n]) && forall d :: Mentions(defs[n], d) ==> d in names
  }

  ghost predicate Agree(x: map<string, Value>, y: map<string, Value>, order: seq<string>, k: nat, names: set<string>)
    requires k <= |order|
  {
    forall i :: 0 <= i < k && order[i] in names ==> order[i] in x && order[i] in y && x[order[i]] == y[order[i]]
  }

  ghost predicate Satisfies(defs: Definitions, arch: string, files: Option<map<string, string>>, names: set<string>,
                            x: map<string, Value>) {
    && x.Keys == defs.Keys
    && forall n :: n in names && n in defs ==> Eval(defs[n], Context(x, arch, files)) == Ok(x[n])
  }

  lemma {:induction false} SatisfiersAgree(defs: Definitions, arch: string, files: Option<map<string, string>>,
                                           order: seq<string>, names: set<string>, k: nat,
                                           x: map<string, Value>, y: map<string, Value>)
    requires EvaluationOrder(defs, order) && NamesAlone(defs, names) && k <= |order|
    requires Satisfies(defs, arch, files, names, x) && Satisfies(defs, arch, files, names, y)
    ensures Agree(x, y, order, k, names)
  {
    if k > 0 {
      SatisfiersAgree(defs, arch, files, order, names, k - 1, x, y);
      if order[k - 1] in names {
        OneMoreAgrees(defs, arch, files, order, names, k - 1, x, y);
      }
    }
  }

  lemma OneMoreAgrees(defs: Definitions, arch: string, files: Option<map<string, string>>, order: seq<string>,
                      names: set<string>, i: nat, x: map<string, Value>, y: map<string, Value>)
    requires EvaluationOrder(defs, order) && NamesAlone(defs, names) && i < |order| && order[i] in names
    requires Satisfies(defs, arch, files, names, x) && Satisfies(defs, arch, files, names, y)
    requires Agree(x, y, order, i, names)
    ensures x[order[i]] == y[order[i]]
  {
    var e := defs[order[i]];
    assert MentionsEarlier(defs, order, i);
    forall d | Mentions(e, d) ensures AgreeOn(x, y, d) {
      var j :| 0 <= j < i && order[..i][j] == d;
      assert order[j] == d && d in names;
    }
    EvalAgrees(e, Context(x, arch, files), Context(y, arch, files));
  }

  /** The equations have at most one solution. */
  lemma SolutionUnique(defs: Definitions, arch: string, files: Option<map<string, string>>, order: seq<string>,
                       a: map<string, Value>, b: map<string, Value>)
    requires EvaluationOrder(defs, order) && AllNamedOnly(defs)
    requires Solves(defs, arch, files, a) && Solves(defs, arch, files, b)
    ensures a == b
  {
    forall n, d | n in defs && Mentions(defs[n], d) ensures d in defs {
      assert n in Elements(order);
      var i :| 0 <= i < |order| && order[i] == n;
      assert MentionsEarlier(defs, order, i);
      assert d in order[..i];
      assert d in Elements(order);
    }
    SatisfiersAgree(defs, arch, files, order, defs.Keys, |order|, a, b);
    forall n | n in a ensures a[n] == b[n] {
      assert n in Elements(order);
      var i :| 0 <= i < |order| && order[i] == n;
      assert order[i] in defs.Keys;
    }
  }

  /** When incremental evaluation fails, the equations have no solution. */
  lemma {:induction false} FailureMeansUnsolvable(defs: Definitions, arch: string, files: Option<map<string, string>>,
                                                  order: seq<string>, k: nat, sol: map<string, Value>)
    requires EvaluationOrder(defs, order) && AllNamedOnly(defs) && k <= |order|
    requires forall n :: n in order ==> n in defs
    requires Solves(defs, arch, files, sol)
    ensures EvaluateInOrder(defs, arch, files, order[..k]) == Ok(Restrict(sol, Elements(order[..k])))
  {
    if k > 0 {
      FailureMeansUnsolvable(defs, arch, files, order, k - 1, sol);
      assert order[..k][..k - 1] == order[..k - 1];
      SolutionStep(defs, arch, files, order, k - 1, sol);
    }
  }

  lemma SolutionStep(defs: Definitions, arch: string, files: Option<map<string, string>>, order: seq<string>, i: nat,
                     sol: map<string, Value>)
    requires EvaluationOrder(defs, order) && AllNamedOnly(defs) && Solves(defs, arch, files, sol) && i < |order|
    ensures order[i] in defs
    ensures Eval(defs[order[i]], Context(Restrict(sol, Elements(order[..i])), arch, files)) == Ok(sol[order[i]])
    ensures Restrict(sol, Elements(order[..i + 1])) == Restrict(sol, Elements(order[..i]))[order[i] := sol[order[i]]]
  {
    assert MentionsEarlier(defs, order, i);
    assert forall m :: m in order[..i] ==> m in order;
    LaterLocalsIrrelevant(defs, arch, files, order, i, sol);
    ElementsSnoc(order, i);
    RestrictOneMore(sol, Elements(order[..i]), order[i]);
  }

  /** Whatever other locals do, the values of names that stand alone do not depend on the order. */
  lemma OrderIrrelevantAmong(defs: Definitions, arch: string, files: Option<map<string, string>>,
                             a: seq<string>, b: seq<string>, names: set<string>)
    requires EvaluationOrder(defs, a) && EvaluationOrder(defs, b) && NamesAlone(defs, names)
    requires forall n :: n in a ==> n in defs
    requires forall n :: n in b ==> n in defs
    requires EvaluateInOrder(defs, arch, files, a).Ok? && EvaluateInOrder(defs, arch, files, b).Ok?
    ensures Restrict(EvaluateInOrder(defs, arch, files, a).value, names)
         == Restrict(EvaluateInOrder(defs, arch, files, b).value, names)
  {
    var x, y := EvaluateInOrder(defs, arch, files, a).value, EvaluateInOrder(defs, arch, files, b).value;
    EvaluationSolves(defs, arch, files, a);
    EvaluationSolves(defs, arch, files, b);
    SatisfiersAgree(defs, arch, files, a, names, |a|, x, y);
    forall n | n in names ensures n in x && n in y && x[n] == y[n] {
      assert n in Elements(a);
      var i :| 0 <= i < |a| && a[i] == n;
      assert a[i] in names;
    }
  }

  /** The values do not depend on the order in which the locals are written or evaluated. */
  lemma OrderIrrelevant(defs: Definitions, arch: string, files: Option<map<string, string>>,
                        a: seq<string>, b: seq<string>)
    requires EvaluationOrder(defs, a) && EvaluationOrder(defs, b) && AllNamedOnly(defs)
    requires forall n :: n in a ==> n in defs
    requires forall n :: n in b ==> n in defs
    ensures EvaluateInOrder(defs, arch, files, a).Ok? <==> EvaluateInOrder(defs, arch, files, b).Ok?
    ensures EvaluateInOrder(defs, arch, files, a).Ok? ==>
              EvaluateInOrder(defs, arch, files, a) == EvaluateInOrder(defs, arch, files, b)
  {
    assert a[..|a|] == a && b[..|b|] == b;
    if EvaluateInOrder(defs, arch, files, a).Ok? {
      EvaluationSolves(defs, arch, files, a);
      FailureMeansUnsolvable(defs, arch, files, b, |b|, EvaluateInOrder(defs, arch, files, a).value);
      EvaluationSolves(defs, arch, files, b);
      SolutionUnique(defs, arch, files, a, EvaluateInOrder(defs, arch, files, a).value,
                     EvaluateInOrder(defs, arch, files, b).value);
    } else if EvaluateInOrder(defs, arch, files, b).Ok? {
      EvaluationSolves(defs, arch, files, b);
      FailureMeansUnsolvable(defs, arch, files, a, |a|, EvaluateInOrder(defs, arch, files, b).value);
    }
  }

  // Exactly when the order shows.

  /** Every local that uses all locals at once has its value among the locals that the order puts before it. */
  ghost predicate BareValues(defs: Definitions, arch: string, files: Option<map<string, string>>, order: seq<string>,
                             sol: map<string, Value>) {
    forall n :: n in defs && !NamedOnly(defs[n]) ==> BareValue(defs, arch, files, order, sol, n)
  }

  ghost predicate BareValue(defs: Definitions, arch: string, files: Option<map<string, string>>, order: seq<string>,
                            sol: map<string, Value>, n: string)
    requires n in defs
  {
    n in sol && Eval(defs[n], OwnScope(order, sol, arch, files, n)) == Ok(sol[n])
  }

  /** Both orders put the same locals before every local that uses all locals at once. */
  ghost predicate SameBareScopes(defs: Definitions, a: seq<string>, b: seq<string>) {
    forall n :: n in defs && !NamedOnly(defs[n]) ==> Before(a, n) == Before(b, n)
  }

  lemma LocalHasOwnValue(defs: Definitions, arch: string, files: Option<map<string, string>>, order: seq<string>,
                         n: string)
    requires EvaluationOrder(defs, order) && (forall m :: m in order ==> m in defs) && n in defs
    requires EvaluateInOrder(defs, arch, files, order).Ok?
    ensures BareValue(defs, arch, files, order, EvaluateInOrder(defs, arch, files, order).value, n)
  {
    assert n in Elements(order);
    var i :| 0 <= i < |order| && order[i] == n;
    ValueInOwnScope(defs, arch, files, order, i);
    BeforeAt(order, i);
  }

  /** sol gives every local that references others by name the value of its own expression under sol. */
  ghost predicate SolvesNamed(defs: Definitions, arch: string, files: Option<map<string, string>>,
                              sol: map<string, Value>) {
    && sol.Keys == defs.Keys
    && forall n :: n in defs && NamedOnly(defs[n]) ==> Eval(defs[n], Context(sol, arch, files)) == Ok(sol[n])
  }

  lemma OneMoreKept(defs: Definitions, arch: string, files: Option<map<string, string>>, order: seq<string>,
                    sol: map<string, Value>, i: nat)
    requires EvaluationOrder(defs, order) && i < |order|
    requires SolvesNamed(defs, arch, files, sol) && BareValues(defs, arch, files, order, sol)
    ensures order[i] in defs && order[i] in sol
    ensures Eval(defs[order[i]], Context(Restrict(sol, Elements(order[..i])), arch, files)) == Ok(sol[order[i]])
  {
    assert MentionsEarlier(defs, order, i);
    if NamedOnly(defs[order[i]]) {
      assert forall m :: m in order[..i] ==> m in order && m in Elements(order);
      LaterLocalsIrrelevant(defs, arch, files, order, i, sol);
    } else {
      assert BareValue(defs, arch, files, order, sol, order[i]);
      BeforeAt(order, i);
    }
  }

  lemma {:induction false} EarlierKept(defs: Definitions, arch: string, files: Option<map<string, string>>,
                                   order: seq<string>, sol: map<string, Value>, k: nat)
    requires EvaluationOrder(defs, order) && (forall n :: n in order ==> n in defs) && k <= |order|
    requires SolvesNamed(defs, arch, files, sol) && BareValues(defs, arch, files, order, sol)
    ensures EvaluateInOrder(defs, arch, files, order[..k]) == Ok(Restrict(sol, Elements(order[..k])))
  {
    if k > 0 {
      EarlierKept(defs, arch, files, order, sol, k - 1);
      OneMoreKept(defs, arch, files, order, sol, k - 1);
      assert order[..k][..k - 1] == order[..k - 1];
      ElementsSnoc(order, k - 1);
      RestrictOneMore(sol, Elements(order[..k - 1]), order[k - 1]);
    }
  }

  lemma WholeRestriction(values: map<string, Value>)
    ensures Restrict(values, values.Keys) == values
  {
  }

  /** What an order gives: values that solve the named definitions come out exactly when each local that uses all locals
      at once, evaluated on its own in the values of those before it, has its value. */
  lemma OrderGives(defs: Definitions, arch: string, files: Option<map<string, string>>, order: seq<string>,
                   sol: map<string, Value>)
    requires EvaluationOrder(defs, order) && (forall n :: n in order ==> n in defs)
    requires SolvesNamed(defs, arch, files, sol)
    ensures EvaluateInOrder(defs, arch, files, order) == Ok(sol) <==> BareValues(defs, arch, files, order, sol)
  {
    if EvaluateInOrder(defs, arch, files, order) == Ok(sol) {
      forall n | n in defs ensures BareValue(defs, arch, files, order, sol, n) {
        LocalHasOwnValue(defs, arch, files, order, n);
      }
    }
    if BareValues(defs, arch, files, order, sol) {
      EarlierKept(defs, arch, files, order, sol, |order|);
      assert order[..|order|] == order && Elements(order) == sol.Keys;
      WholeRestriction(sol);
    }
  }

  /** So another order gives the same values exactly when it does so for each such local. */
  lemma OrderShowsInBareLocals(defs: Definitions, arch: string, files: Option<map<string, string>>, a: seq<string>,
                               b: seq<string>)
    requires EvaluationOrder(defs, a) && EvaluationOrder(defs, b)
    requires forall n :: n in a ==> n in defs
    requires forall n :: n in b ==> n in defs
    requires EvaluateInOrder(defs, arch, files, a).Ok?
    ensures EvaluateInOrder(defs, arch, files, b) == EvaluateInOrder(defs, arch, files, a)
       <==> BareValues(defs, arch, files, b, EvaluateInOrder(defs, arch, files, a).value)
  {
    EvaluationSolves(defs, arch, files, a);
    OrderGives(defs, arch, files, b, EvaluateInOrder(defs, arch, files, a).value);
  }

  lemma SameScopesSameValues(defs: Definitions, arch: string, files: Option<map<string, string>>, a: seq<string>,
                             b: seq<string>)
    requires EvaluationOrder(defs, a) && (forall n :: n in a ==> n in defs) && SameBareScopes(defs, a, b)
    requires EvaluateInOrder(defs, arch, files, a).Ok?
    ensures BareValues(defs, arch, files, b, EvaluateInOrder(defs, arch, files, a).value)
  {
    var sol := EvaluateInOrder(defs, arch, files, a).value;
    forall n | n in defs && !NamedOnly(defs[n]) ensures BareValue(defs, arch, files, b, sol, n) {
      LocalHasOwnValue(defs, arch, files, a, n);
    }
  }

  /** Each local names what it references, or is the object of all locals. */
  ghost predicate NamedOrWhole(defs: Definitions) {
    forall n :: n in defs ==> NamedOnly(defs[n]) || defs[n] == WholeLocal
  }

  lemma RestrictedKeys(values: map<string, Value>, x: set<string>, y: set<string>)
    requires x <= values.Keys && y <= values.Keys && Restrict(values, x) == Restrict(values, y)
    ensures x == y
  {
    assert Restrict(values, x).Keys == x && Restrict(values, y).Keys == y;
  }

  lemma {:induction false} BeforeListed(order: seq<string>, n: string)
    ensures Before(order, n) <= Elements(order)
  {
    if order != [] {
      BeforeListed(order[..|order| - 1], n);
    }
  }

  /** When locals name what they reference or are the object of all locals, two orders give the same values exactly when
      they put the same locals before each of the latter; whatever the locals are, that is enough. */
  lemma OrderIrrelevantExactly(defs: Definitions, arch: string, files: Option<map<string, string>>, a: seq<string>,
                               b: seq<string>)
    requires EvaluationOrder(defs, a) && EvaluationOrder(defs, b)
    requires forall n :: n in a ==> n in defs
    requires forall n :: n in b ==> n in defs
    requires EvaluateInOrder(defs, arch, files, a).Ok?
    ensures SameBareScopes(defs, a, b) ==>
              EvaluateInOrder(defs, arch, files, b) == EvaluateInOrder(defs, arch, files, a)
    ensures NamedOrWhole(defs) ==>
              (EvaluateInOrder(defs, arch, files, b) == EvaluateInOrder(defs, arch, files, a)
               <==> SameBareScopes(defs, a, b))
  {
    OrderShowsInBareLocals(defs, arch, files, a, b);
    if SameBareScopes(defs, a, b) {
      SameScopesSameValues(defs, arch, files, a, b);
    }
    if NamedOrWhole(defs) && EvaluateInOrder(defs, arch, files, b) == EvaluateInOrder(defs, arch, files, a) {
      EqualValuesSameScopes(defs, arch, files, a, b);
    }
  }

  lemma EqualValuesSameScopes(defs: Definitions, arch: string, files: Option<map<string, string>>, a: seq<string>,
                              b: seq<string>)
    requires EvaluationOrder(defs, a) && EvaluationOrder(defs, b) && NamedOrWhole(defs)
    requires forall n :: n in a ==> n in defs
    requires forall n :: n in b ==> n in defs
    requires EvaluateInOrder(defs, arch, files, a).Ok?
    requires EvaluateInOrder(defs, arch, files, b) == EvaluateInOrder(defs, arch, files, a)
    ensures SameBareScopes(defs, a, b)
  {
    var sol := EvaluateInOrder(defs, arch, files, a).value;
    forall n | n in defs && !NamedOnly(defs[n]) ensures Before(a, n) == Before(b, n) {
      LocalHasOwnValue(defs, arch, files, a, n);
      LocalHasOwnValue(defs, arch, files, b, n);
      BeforeListed(a, n);
      BeforeListed(b, n);
      RestrictedKeys(sol, Before(a, n), Before(b, n));
    }
  }
}
