/** Variables as values, and the algebra of overlaying one on another, internal/bundle/configuration.go. */
module VariableTrees {
  import opened Wrappers

  datatype Scalar = Text(text: string) | Number(number: real) | Flag(flag: bool) | Null

  /** The last four are nil Variables, a nil list, a map[string]any that is not Variables, and a value of any other
      reference type, whose content is not looked at. */
  datatype Tree =
    | Leaf(scalar: Scalar) | List(items: seq<Tree>) | Map(entries: map<string, Tree>)
    | NilMap | NilList | ForeignMap | Other
  {
    /** A value of type Variables. */
    predicate IsVariables() {
      Map? || NilMap?
    }

    predicate IsEmpty() {
      NilMap? || (Map? && entries == map[])
    }
  }

  /** Nested maps are merged, anything else is replaced; merging nothing in changes nothing. */
  function Overlay(d: Tree, s: Tree): Tree
    decreases s
  {
    if d.Map? && s.Map? then
      Map(map k | k in d.entries.Keys + s.entries.Keys ::
            if k !in s.entries then d.entries[k]
            else if k !in d.entries then s.entries[k]
            else Overlay(d.entries[k], s.entries[k]))
    else if d.IsVariables() && s.IsEmpty() then d
    else s
  }

  // Where the source panics.

  /** No foreign map is in the value. */
  predicate Copyable(t: Tree) {
    match t
    case ForeignMap => false
    case List(items) => forall i :: 0 <= i < |items| ==> Copyable(items[i])
    case Map(entries) => forall k :: k in entries ==> Copyable(entries[k])
    case _ => true
  }

  /** Merging s into d comes to an end: nothing is stored in nil Variables and no foreign map is copied. */
  predicate Mergeable(d: Tree, s: Tree)
    decreases s, 0
  {
    if d.IsVariables() && s.IsVariables() then
      s.IsEmpty() || (d.Map? && forall k :: k in s.entries ==> EntryMergeable(d, k, s.entries[k]))
    else Copyable(s)
  }

  predicate EntryMergeable(d: Tree, k: string, x: Tree)
    requires d.Map?
    decreases x, 1
  {
    if k in d.entries then Mergeable(d.entries[k], x) else Copyable(x)
  }

  /** At the path the base has nil Variables and the override something to store there. */
  ghost predicate StoresInNil(d: Tree, s: Tree, p: Path) {
    Lookup(d, p) == Some(NilMap) && Lookup(s, p).Some? && Lookup(s, p).value.Map? && !Lookup(s, p).value.IsEmpty()
  }

  lemma LookupBelow(d: Tree, k: string, p: Path)
    requires d.Map? && k in d.entries
    ensures Lookup(d, [k] + p) == Lookup(d.entries[k], p)
  {
    assert ([k] + p)[1..] == p;
  }

  /** Merging comes to an end exactly when the override has no foreign map, and nowhere something to store where the
      base has nil Variables. */
  lemma {:induction false} MergeableMeaning(d: Tree, s: Tree)
    ensures Mergeable(d, s) <==> Copyable(s) && forall p :: !StoresInNil(d, s, p)
    decreases s
  {
    if d.Map? && s.Map? {
      forall k | k in s.entries && k in d.entries { MergeableMeaning(d.entries[k], s.entries[k]); }
      if !Mergeable(d, s) {
        StoresBelow(d, s);
      } else {
        forall k | k in s.entries ensures Copyable(s.entries[k]) {
          assert EntryMergeable(d, k, s.entries[k]);
        }
        forall p ensures !StoresInNil(d, s, p) {
          if p != [] && p[0] in d.entries && p[0] in s.entries {
            assert EntryMergeable(d, p[0], s.entries[p[0]]);
            assert !StoresInNil(d.entries[p[0]], s.entries[p[0]], p[1..]);
          }
        }
      }
    } else if d.NilMap? && s.Map? {
      assert !s.IsEmpty() ==> StoresInNil(d, s, []);
      forall p | s.IsEmpty() ensures !StoresInNil(d, s, p) {
      }
    } else {
      forall p ensures !StoresInNil(d, s, p) {
      }
    }
  }

  /** An entry that cannot be merged shows it for the whole. */
  lemma StoresBelow(d: Tree, s: Tree)
    requires d.Map? && s.Map? && !Mergeable(d, s)
    requires forall k :: k in s.entries && k in d.entries ==>
               (Mergeable(d.entries[k], s.entries[k])
                <==> Copyable(s.entries[k]) && forall p :: !StoresInNil(d.entries[k], s.entries[k], p))
    ensures !Copyable(s) || exists p :: StoresInNil(d, s, p)
  {
    var k :| k in s.entries && !EntryMergeable(d, k, s.entries[k]);
    if Copyable(s.entries[k]) {
      var p :| StoresInNil(d.entries[k], s.entries[k], p);
      LookupBelow(d, k, p);
      LookupBelow(s, k, p);
      assert StoresInNil(d, s, [k] + p);
    }
  }

  /** Every nested map is made of Variables, none of them nil. */
  predicate Plain(t: Tree) {
    match t
    case Leaf(_) => true
    case Other => true
    case List(items) => forall i :: 0 <= i < |items| ==> Plain(items[i])
    case Map(entries) => forall k :: k in entries ==> Plain(entries[k])
    case _ => false
  }

  /** Plain configurations always merge, and to a plain configuration. */
  lemma {:induction false} PlainMerges(d: Tree, s: Tree)
    requires Plain(d) && Plain(s)
    ensures Mergeable(d, s) && Plain(Overlay(d, s))
    decreases s
  {
    PlainCopyable(s);
    if d.Map? && s.Map? {
      forall k | k in s.entries ensures EntryMergeable(d, k, s.entries[k]) {
        PlainCopyable(s.entries[k]);
        if k in d.entries {
          PlainMerges(d.entries[k], s.entries[k]);
        }
      }
      forall k | k in s.entries && k in d.entries { PlainMerges(d.entries[k], s.entries[k]); }
    }
  }

  lemma {:induction false} PlainCopyable(t: Tree)
    requires Plain(t)
    ensures Copyable(t)
    decreases t
  {
    match t
    case List(items) => forall i | 0 <= i < |items| { PlainCopyable(items[i]); }
    case Map(entries) => forall k | k in entries { PlainCopyable(entries[k]); }
    case _ =>
  }

  // What overlaying means.

  type Path = seq<string>

  function Lookup(t: Tree, p: Path): Option<Tree>
    decreases |p|
  {
    if p == [] then Some(t)
    else if t.Map? && p[0] in t.entries then Lookup(t.entries[p[0]], p[1..])
    else None
  }

  /** Something stands at the path, or a leaf or list stands above it. */
  ghost predicate Shadowed(s: Tree, p: Path) {
    exists i :: 0 <= i <= |p| && Shadows(s, p, i)
  }

  ghost predicate Shadows(s: Tree, p: Path, i: nat)
    requires i <= |p|
  {
    Lookup(s, p[..i]).Some? && (i == |p| || !Lookup(s, p[..i]).value.IsVariables())
  }

  lemma ShadowedBelow(s: Tree, p: Path)
    requires p != [] && s.Map?
    ensures p[0] in s.entries ==> (Shadowed(s, p) <==> Shadowed(s.entries[p[0]], p[1..]))
    ensures p[0] !in s.entries ==> !Shadowed(s, p)
  {
    forall i | 0 < i <= |p| ensures p[..i][0] == p[0] && p[..i][1..] == p[1..][..i - 1] {
    }
    assert Lookup(s, p[..0]) == Some(s);
    if p[0] in s.entries {
      var child, rest := s.entries[p[0]], p[1..];
      forall i | 0 < i <= |p| ensures Shadows(s, p, i) <==> Shadows(child, rest, i - 1) {
        assert Lookup(s, p[..i]) == Lookup(child, rest[..i - 1]);
      }
      if i :| 0 <= i <= |rest| && Shadows(child, rest, i) {
        assert Shadows(s, p, i + 1);
      }
    }
  }

  lemma NothingShadowed(s: Tree, p: Path)
    requires s.IsEmpty() && p != []
    ensures !Shadowed(s, p) && Lookup(s, p).None?
  {
    forall i | 0 <= i <= |p| ensures !Shadows(s, p, i) {
      if i > 0 {
        assert p[..i] != [];
      }
    }
  }

  /** What overlaying means, path by path: a scalar or list is in the result exactly when the override has it there, or
      the base has it there and the override shadows nothing on the way. */
  lemma {:induction false} OverlayMeaning(d: Tree, s: Tree, p: Path, x: Tree)
    requires !x.IsVariables()
    ensures Lookup(Overlay(d, s), p) == Some(x)
       <==> Lookup(s, p) == Some(x) || (Lookup(d, p) == Some(x) && !Shadowed(s, p))
    decreases |p|
  {
    if p == [] {
      assert Shadows(s, p, 0);
    } else if d.Map? && s.Map? {
      ShadowedBelow(s, p);
      if p[0] in s.entries && p[0] in d.entries {
        OverlayMeaning(d.entries[p[0]], s.entries[p[0]], p[1..], x);
      }
    } else if !s.IsVariables() {
      assert Shadows(s, p, 0);
    } else if s.IsEmpty() {
      NothingShadowed(s, p);
    } else {
      assert Lookup(d, p) == None;
    }
  }

  const NO_VARIABLES: Tree := Map(map[])

  lemma OverlayEmpty(t: Tree)
    requires t.Map?
    ensures Overlay(NO_VARIABLES, t) == t && Overlay(t, NO_VARIABLES) == t && Overlay(t, NilMap) == t
  {
  }

  /** The overlay already has every key of the base, and nowhere a map to merge into that lacks one. */
  predicate Covers(s: Tree, d: Tree)
    decreases s
  {
    if d.Map? && s.Map? then
      && d.entries.Keys <= s.entries.Keys
      && forall k :: k in d.entries ==> Covers(s.entries[k], d.entries[k])
    else d.IsVariables() && s.IsEmpty() ==> d == s
  }

  /** The base has nothing to add exactly when it is covered. */
  lemma {:induction false} CoversMeaning(d: Tree, s: Tree)
    ensures Overlay(d, s) == s <==> Covers(s, d)
    decreases s
  {
    if d.Map? && s.Map? {
      var o := Overlay(d, s);
      assert o.entries.Keys == d.entries.Keys + s.entries.Keys;
      forall k | k in d.entries && k in s.entries
        ensures o.entries[k] == s.entries[k] <==> Covers(s.entries[k], d.entries[k]) {
        CoversMeaning(d.entries[k], s.entries[k]);
      }
      if Covers(s, d) {
        assert o.entries == s.entries;
      }
    }
  }

  lemma {:induction false} OverlayCovers(d: Tree, s: Tree)
    ensures Covers(Overlay(d, s), d)
    decreases s
  {
    if d.Map? && s.Map? {
      forall k | k in d.entries ensures Covers(Overlay(d, s).entries[k], d.entries[k]) {
        if k in s.entries {
          OverlayCovers(d.entries[k], s.entries[k]);
        } else {
          CoversItself(d.entries[k]);
        }
      }
    } else if d.Map? && s.NilMap? {
      CoversItself(d);
    }
  }

  lemma {:induction false} CoversItself(t: Tree)
    ensures Covers(t, t)
    decreases t
  {
    if t.Map? {
      forall k | k in t.entries ensures Covers(t.entries[k], t.entries[k]) {
        CoversItself(t.entries[k]);
      }
    }
  }

  /** Merging the same base in again changes nothing. */
  lemma OverlayTwice(d: Tree, s: Tree)
    ensures Overlay(d, Overlay(d, s)) == Overlay(d, s)
  {
    OverlayCovers(d, s);
    CoversMeaning(d, Overlay(d, s));
  }

  /** Nothing but a map of b stands between a map of a and a map of c, unless that map of c covers that of a. */
  predicate Regroups(a: Tree, b: Tree, c: Tree)
    decreases c, 1
  {
    if !a.IsVariables() || !c.IsVariables() then true
    else if !b.IsVariables() then Covers(c, a)
    else a.Map? && b.Map? && c.Map? ==> forall k :: k in a.entries ==> RegroupsAt(a, b, c, k)
  }

  predicate RegroupsAt(a: Tree, b: Tree, c: Tree, k: string)
    requires a.Map? && b.Map? && c.Map? && k in a.entries
    decreases c, 0
  {
    k in b.entries && k in c.entries ==> Regroups(a.entries[k], b.entries[k], c.entries[k])
  }

  /** Overlaying three configurations can be regrouped exactly then. */
  lemma {:induction false} RegroupingMeaning(a: Tree, b: Tree, c: Tree)
    ensures Overlay(Overlay(a, b), c) == Overlay(a, Overlay(b, c)) <==> Regroups(a, b, c)
    decreases c
  {
    if a.IsVariables() && c.IsVariables() && !b.IsVariables() {
      CoversMeaning(a, c);
    } else if a.Map? && b.Map? && c.Map? {
      var left, right := Overlay(Overlay(a, b), c), Overlay(a, Overlay(b, c));
      var keys := a.entries.Keys + b.entries.Keys + c.entries.Keys;
      assert left.entries.Keys == keys && right.entries.Keys == keys;
      forall k | k in keys ensures left.entries[k] == right.entries[k]
          <==> (k in a.entries ==> RegroupsAt(a, b, c, k)) {
        RegroupAt(a, b, c, k);
        if k in a.entries && k in b.entries && k in c.entries {
          RegroupingMeaning(a.entries[k], b.entries[k], c.entries[k]);
        }
      }
      if Regroups(a, b, c) {
        assert left.entries == right.entries;
      }
    }
  }

  /** Key by key, regrouping matters only where all three have the key. */
  lemma RegroupAt(a: Tree, b: Tree, c: Tree, k: string)
    requires a.Map? && b.Map? && c.Map? && k in a.entries.Keys + b.entries.Keys + c.entries.Keys
    ensures var left, right := Overlay(Overlay(a, b), c), Overlay(a, Overlay(b, c));
            if k in a.entries && k in b.entries && k in c.entries
            then left.entries[k] == Overlay(Overlay(a.entries[k], b.entries[k]), c.entries[k])
              && right.entries[k] == Overlay(a.entries[k], Overlay(b.entries[k], c.entries[k]))
            else left.entries[k] == right.entries[k]
  {
  }

  /** Regrouping does fail: a scalar between two maps hides the base's other keys only on the left. */
  lemma ScalarBetweenMaps()
    ensures var on := Leaf(Flag(true));
            var a, b, c := Map(map["k" := Map(map["x" := on])]), Map(map["k" := on]), Map(map["k" := NO_VARIABLES]);
            Overlay(Overlay(a, b), c) != Overlay(a, Overlay(b, c))
  {
    var on := Leaf(Flag(true));
    var a, b, c := Map(map["k" := Map(map["x" := on])]), Map(map["k" := on]), Map(map["k" := NO_VARIABLES]);
    assert "x" in a.entries["k"].entries && !Covers(c.entries["k"], a.entries["k"]);
    assert !Regroups(a.entries["k"], b.entries["k"], c.entries["k"]);
    RegroupingMeaning(a, b, c);
  }
}
