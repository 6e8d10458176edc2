/** What becomes of local definitions when those that call file() are replaced by their values. */
module MaterializedLocals {
  import opened Wrappers
  import opened Sequences
  import opened Expressions
  import opened LocalEvaluation

  /** The definitions with a literal in place of every expression that calls file(). */
  function WithLiterals(defs: Definitions, values: map<string, Value>): Definitions {
    map n | n in defs :: if ContainsFile(defs[n]) && n in values then Literal(values[n]) else defs[n]
  }

  lemma LiteralKeys(defs: Definitions, values: map<string, Value>)
    ensures WithLiterals(defs, values).Keys == defs.Keys
  {
  }

  lemma LiteralsOneMore(defs: Definitions, values: map<string, Value>, n: string, e: Expr)
    ensures WithLiterals(defs[n := e], values)
         == WithLiterals(defs, values)[n := if ContainsFile(e) && n in values then Literal(values[n]) else e]
  {
  }

  /** Every local that keeps a use of all locals at once finds the same locals before it in both orders. */
  ghost predicate SameScopes(defs: Definitions, order: seq<string>, order': seq<string>) {
    forall n :: n in defs && !ContainsFile(defs[n]) && !NamedOnly(defs[n]) ==> Before(order, n) == Before(order', n)
  }

  /** A check on the definitions alone that makes every pair of orders agree. */
  ghost predicate OthersNamedOnly(defs: Definitions) {
    forall n :: n in defs && !ContainsFile(defs[n]) ==> NamedOnly(defs[n])
  }

  lemma NamedOnlySameScopes(defs: Definitions, order: seq<string>, order': seq<string>)
    requires OthersNamedOnly(defs)
    ensures SameScopes(defs, order, order')
  {
  }

  /** The values of the definitions solve those with literals in them, without files. */
  lemma LiteralsSolveNamed(defs: Definitions, arch: string, files: map<string, string>, order: seq<string>,
                           values: map<string, Value>)
    requires EvaluationOrder(defs, order) && forall n :: n in order ==> n in defs
    requires EvaluateInOrder(defs, arch, Some(files), order) == Ok(values)
    ensures SolvesNamed(WithLiterals(defs, values), arch, None, values)
  {
    EvaluationSolves(defs, arch, Some(files), order);
    LiteralKeys(defs, values);
    forall n | n in defs && NamedOnly(WithLiterals(defs, values)[n])
      ensures Eval(WithLiterals(defs, values)[n], Context(values, arch, None)) == Ok(values[n]) {
      if !ContainsFile(defs[n]) {
        EvalWithoutFiles(defs[n], Context(values, arch, Some(files)));
      }
    }
  }

  /** The new definitions have the old values, without files, exactly when each local that still uses all locals at once
      has its value among those that the new order puts before it. */
  lemma LiteralsKeepValues(defs: Definitions, arch: string, files: map<string, string>, order: seq<string>,
                           order': seq<string>, values: map<string, Value>)
    requires EvaluationOrder(defs, order) && forall n :: n in order ==> n in defs
    requires EvaluateInOrder(defs, arch, Some(files), order) == Ok(values)
    requires EvaluationOrder(WithLiterals(defs, values), order')
    requires forall n :: n in order' ==> n in WithLiterals(defs, values)
    ensures EvaluateInOrder(WithLiterals(defs, values), arch, None, order') == Ok(values)
       <==> BareValues(WithLiterals(defs, values), arch, None, order', values)
  {
    LiteralsSolveNamed(defs, arch, files, order, values);
    OrderGives(WithLiterals(defs, values), arch, None, order', values);
  }

  /** With the same scopes they have. */
  lemma SameScopesKeepValues(defs: Definitions, arch: string, files: map<string, string>, order: seq<string>,
                             order': seq<string>, values: map<string, Value>)
    requires EvaluationOrder(defs, order) && forall n :: n in order ==> n in defs
    requires EvaluateInOrder(defs, arch, Some(files), order) == Ok(values) && SameScopes(defs, order, order')
    ensures BareValues(WithLiterals(defs, values), arch, None, order', values)
  {
    var defs' := WithLiterals(defs, values);
    forall n | n in defs' && !NamedOnly(defs'[n]) ensures BareValue(defs', arch, None, order', values, n) {
      LocalHasOwnValue(defs, arch, Some(files), order, n);
      EvalWithoutFiles(defs[n], OwnScope(order, values, arch, Some(files), n));
    }
  }

  /** Conversely, where the values are kept, every local that is all locals at once had the same locals before it. */
  lemma KeptValuesMeanSameScope(defs: Definitions, arch: string, files: map<string, string>,
                                order: seq<string>, order': seq<string>, values: map<string, Value>, n: string)
    requires EvaluationOrder(defs, order) && forall m :: m in order ==> m in defs
    requires EvaluateInOrder(defs, arch, Some(files), order) == Ok(values) && Elements(order') == defs.Keys
    requires BareValues(WithLiterals(defs, values), arch, None, order', values)
    requires n in defs && defs[n] == WholeLocal
    ensures Before(order, n) == Before(order', n)
  {
    LocalHasOwnValue(defs, arch, Some(files), order, n);
    assert !NamedOnly(WholeLocal) by { assert References(WholeLocal)[0] == None; }
    assert BareValue(WithLiterals(defs, values), arch, None, order', values, n);
    BeforeListed(order, n);
    BeforeListed(order', n);
    RestrictedKeys(values, Before(order, n), Before(order', n));
  }
}
