/** Merging variables in place over heap maps and lists, internal/bundle/configuration.go. */
module VariableMerge {
  import opened VariableTrees

  /** A map of variables; parts records, for a map with exclusive contents, the objects under each key. */
  class Variables {
    var entries: map<string, HeapValue>
    ghost var parts: map<string, set<object>>

    constructor ()
      ensures entries == map[] && parts == map[]
    {
      entries, parts := map[], map[];
    }
  }

  class Slice {
    var items: seq<HeapValue>
    ghost var parts: seq<set<object>>

    constructor ()
      ensures items == [] && parts == []
    {
      items, parts := [], [];
    }
  }

  /** Variables and lists may be nil; a map[string]any that is not Variables is a key contract violation; a value of any
      other reference type is only passed on. */
  datatype HeapValue =
    | ScalarValue(scalar: Scalar) | Dict(vars: Variables?) | SliceValue(slice: Slice?)
    | OtherMap | OtherValue(ref: object)

  /** The value, read from the heap, is the tree; its objects are among those given and may be shared. */
  ghost predicate Denotes(v: HeapValue, t: Tree, objects: set<object>)
    reads objects
    decreases t
  {
    match v
    case ScalarValue(x) => t == Leaf(x)
    case OtherMap => t == ForeignMap
    case OtherValue(_) => t == Other
    case Dict(vars) =>
      if vars == null then t == NilMap
      else
        && t.Map? && vars in objects && vars.entries.Keys == t.entries.Keys
        && forall k :: k in t.entries ==> Denotes(vars.entries[k], t.entries[k], objects)
    case SliceValue(slice) =>
      if slice == null then t == NilList
      else
        && t.List? && slice in objects && |slice.items| == |t.items|
        && forall i :: 0 <= i < |t.items| ==> Denotes(slice.items[i], t.items[i], objects)
  }

  // Exclusive ownership: no object is reached twice.

  ghost function UnionOfMap(parts: map<string, set<object>>): set<object> {
    set k, o | k in parts && o in parts[k] :: o
  }

  ghost function UnionOfSeq(parts: seq<set<object>>): set<object> {
    set i, o | 0 <= i < |parts| && o in parts[i] :: o
  }

  /** The value is the tree, and owned is exactly its maps and lists, each reached in one way only. */
  ghost predicate Owns(v: HeapValue, t: Tree, owned: set<object>)
    reads owned
    decreases t, 1
  {
    match v
    case ScalarValue(x) => t == Leaf(x) && owned == {}
    case OtherMap => t == ForeignMap && owned == {}
    case OtherValue(_) => t == Other && owned == {}
    case Dict(vars) =>
      if vars == null then t == NilMap && owned == {}
      else
        && t.Map? && vars in owned && owned == {vars} + UnionOfMap(vars.parts)
        && OwnsEntries(vars, t, vars.parts)
    case SliceValue(slice) =>
      if slice == null then t == NilList && owned == {}
      else
        && t.List? && slice in owned && owned == {slice} + UnionOfSeq(slice.parts)
        && OwnsItems(slice, t, slice.parts)
  }

  ghost predicate OwnsEntries(vars: Variables, t: Tree, parts: map<string, set<object>>)
    requires t.Map?
    reads vars, UnionOfMap(parts)
    decreases t, 0
  {
    && vars !in UnionOfMap(parts)
    && vars.entries.Keys == t.entries.Keys && parts.Keys == t.entries.Keys
    && PairwiseDisjoint(parts)
    && (forall k :: k in t.entries ==> Owns(vars.entries[k], t.entries[k], parts[k]))
  }

  ghost predicate PairwiseDisjoint(parts: map<string, set<object>>) {
    forall j, k :: j in parts && k in parts && j != k ==> parts[j] !! parts[k]
  }

  ghost predicate OwnsItems(slice: Slice, t: Tree, parts: seq<set<object>>)
    requires t.List?
    reads slice, UnionOfSeq(parts)
    decreases t, 0
  {
    && slice !in UnionOfSeq(parts)
    && |slice.items| == |t.items| == |parts|
    && (forall i, j :: 0 <= i < j < |parts| ==> parts[i] !! parts[j])
    && (forall i :: 0 <= i < |t.items| ==> Owns(slice.items[i], t.items[i], parts[i]))
  }

  /** A value has one meaning. */
  lemma {:induction false} DenotesOneTree(v: HeapValue, t: Tree, u: Tree, objects: set<object>)
    requires Denotes(v, t, objects) && Denotes(v, u, objects)
    ensures t == u
    decreases t
  {
    if v.Dict? && v.vars != null {
      forall k | k in t.entries ensures t.entries[k] == u.entries[k] {
        DenotesOneTree(v.vars.entries[k], t.entries[k], u.entries[k], objects);
      }
      assert t.entries == u.entries;
    } else if v.SliceValue? && v.slice != null {
      forall i | 0 <= i < |t.items| ensures t.items[i] == u.items[i] {
        DenotesOneTree(v.slice.items[i], t.items[i], u.items[i], objects);
      }
      assert t.items == u.items;
    }
  }

  /** Exclusive values are values: the result of one merge can be an input of the next. */
  lemma {:induction false} OwnedDenotes(v: HeapValue, t: Tree, owned: set<object>, objects: set<object>)
    requires Owns(v, t, owned) && owned <= objects
    ensures Denotes(v, t, objects)
    decreases t
  {
    if v.Dict? && v.vars != null {
      UnionOfUpdate(v.vars.parts, "", {});
      forall k | k in t.entries ensures Denotes(v.vars.entries[k], t.entries[k], objects) {
        OwnedDenotes(v.vars.entries[k], t.entries[k], v.vars.parts[k], objects);
      }
    } else if v.SliceValue? && v.slice != null {
      UnionOfSnoc(v.slice.parts, {});
      forall i | 0 <= i < |t.items| ensures Denotes(v.slice.items[i], t.items[i], objects) {
        OwnedDenotes(v.slice.items[i], t.items[i], v.slice.parts[i], objects);
      }
    }
  }

  lemma UnionOfUpdate(parts: map<string, set<object>>, k: string, part: set<object>)
    ensures UnionOfMap(parts[k := part]) <= UnionOfMap(parts) + part
    ensures forall j :: j in parts ==> parts[j] <= UnionOfMap(parts)
  {
  }

  lemma UnionOfSnoc(parts: seq<set<object>>, part: set<object>)
    ensures UnionOfSeq(parts + [part]) == UnionOfSeq(parts) + part
    ensures forall i :: 0 <= i < |parts| ==> parts[i] <= UnionOfSeq(parts)
  {
    var longer := parts + [part];
    forall o | o in UnionOfSeq(parts) + part ensures o in UnionOfSeq(longer) {
      if o in UnionOfSeq(parts) {
        var i :| 0 <= i < |parts| && o in parts[i];
        assert o in longer[i];
      } else {
        assert o in longer[|parts|];
      }
    }
  }

  lemma UpdateKeepsDisjoint(parts: map<string, set<object>>, k: string, part: set<object>)
    requires PairwiseDisjoint(parts) && forall j :: j in parts && j != k ==> parts[j] !! part
    ensures PairwiseDisjoint(parts[k := part])
  {
  }

  /** The objects under every key but k are exclusive, and part has none of them. */
  ghost predicate OwnsOthers(vars: Variables, entries: map<string, HeapValue>, parts: map<string, set<object>>, t: Tree,
                             k: string, part: set<object>)
    requires t.Map?
    reads UnionOfMap(parts)
  {
    && vars !in UnionOfMap(parts) && vars !in part && PairwiseDisjoint(parts)
    && entries.Keys == t.entries.Keys && parts.Keys == t.entries.Keys
    && forall j :: j in t.entries && j != k ==> parts[j] !! part && Owns(entries[j], t.entries[j], parts[j])
  }

  lemma OwnsWith(vars: Variables, entries: map<string, HeapValue>, parts: map<string, set<object>>, t: Tree,
                 k: string, v: HeapValue, x: Tree, part: set<object>)
    requires t.Map? && OwnsOthers(vars, entries, parts, t, k, part) && Owns(v, x, part)
    requires vars.entries == entries[k := v]
    ensures OwnsEntries(vars, Map(t.entries[k := x]), parts[k := part])
  {
    UnionOfUpdate(parts, k, part);
    UpdateKeepsDisjoint(parts, k, part);
  }

  /** Sets one key to a value with objects of its own, whatever was under it before. */
  method Put(vars: Variables, k: string, v: HeapValue, ghost t: Tree, ghost x: Tree, ghost part: set<object>)
    requires t.Map? && OwnsOthers(vars, vars.entries, vars.parts, t, k, part) && Owns(v, x, part)
    modifies vars
    ensures OwnsEntries(vars, Map(t.entries[k := x]), vars.parts)
    ensures vars.entries == old(vars.entries)[k := v] && vars.parts == old(vars.parts)[k := part]
  {
    ghost var entries, parts := vars.entries, vars.parts;
    vars.entries := vars.entries[k := v];
    vars.parts := vars.parts[k := part];
    OwnsWith(vars, entries, parts, t, k, v, x, part);
  }

  method Append(slice: Slice, v: HeapValue, ghost t: Tree, ghost x: Tree, ghost part: set<object>)
    requires t.List? && OwnsItems(slice, t, slice.parts)
    requires Owns(v, x, part) && slice !in part && UnionOfSeq(slice.parts) !! part
    modifies slice
    ensures OwnsItems(slice, List(t.items + [x]), slice.parts)
    ensures slice.items == old(slice.items) + [v] && slice.parts == old(slice.parts) + [part]
  {
    UnionOfSnoc(slice.parts, part);
    slice.items := slice.items + [v];
    slice.parts := slice.parts + [part];
  }

  ghost function Without(t: Tree, keys: set<string>): Tree
    requires t.Map?
  {
    Map(map k | k in t.entries && k !in keys :: t.entries[k])
  }

  lemma WithoutLess(t: Tree, keys: set<string>, k: string)
    requires t.Map? && k in t.entries && k in keys
    ensures Without(t, keys - {k}) == Map(Without(t, keys).entries[k := t.entries[k]])
  {
  }

  lemma WithoutNothing(t: Tree)
    requires t.Map?
    ensures Without(t, {}) == t && Without(t, t.entries.Keys) == NO_VARIABLES
  {
  }

  ghost function FirstItems(t: Tree, n: nat): Tree
    requires t.List? && n <= |t.items|
  {
    List(t.items[..n])
  }

  lemma FirstItemsMore(t: Tree, n: nat)
    requires t.List? && n < |t.items|
    ensures FirstItems(t, n + 1) == List(FirstItems(t, n).items + [t.items[n]])
  {
  }

  lemma FirstItemsAll(t: Tree)
    requires t.List?
    ensures FirstItems(t, |t.items|) == t
  {
  }

  /** Every entry outside keys can be copied. */
  ghost predicate CopiedOutside(t: Tree, keys: set<string>)
    requires t.Map?
  {
    forall k :: k in t.entries && k !in keys ==> Copyable(t.entries[k])
  }

  ghost predicate CopiedUpTo(t: Tree, n: nat)
    requires t.List? && n <= |t.items|
  {
    forall i :: 0 <= i < n ==> Copyable(t.items[i])
  }

  /** Copies to objects of its own, or panics on a map that is not Variables; what it does not know it shares. */
  method DeepCopyAny(v: HeapValue, ghost t: Tree, ghost objects: set<object>)
    returns (panicked: bool, c: HeapValue, ghost owned: set<object>)
    requires Denotes(v, t, objects)
    ensures panicked <==> !Copyable(t)
    ensures !panicked ==> Owns(c, t, owned) && fresh(owned)
    ensures v.ScalarValue? || v.OtherValue? ==> c == v
    decreases t, 1
  {
    panicked, c, owned := false, v, {};
    match v
    case ScalarValue(_) =>
    case OtherValue(_) =>
    case OtherMap => panicked := true;
    case Dict(vars) =>
      var copy;
      panicked, copy, owned := DeepCopyVariables(vars, t, objects);
      c := Dict(copy);
    case SliceValue(slice) =>
      var copy;
      panicked, copy, owned := DeepCopySlice(slice, t, objects);
      c := SliceValue(copy);
  }

  method DeepCopyVariables(v: Variables?, ghost t: Tree, ghost objects: set<object>)
    returns (panicked: bool, out: Variables?, ghost owned: set<object>)
    requires Denotes(Dict(v), t, objects)
    ensures panicked <==> !Copyable(t)
    ensures !panicked ==> Owns(Dict(out), t, owned) && fresh(owned) && (out == null <==> v == null)
    decreases t, 0
  {
    panicked, out, owned := false, null, {};
    if v == null {
      return;
    }
    var copies := new Variables();
    ghost var done: Tree := NO_VARIABLES;
    WithoutNothing(t);
    var keys := v.entries.Keys;
    while keys != {}
      invariant keys <= v.entries.Keys
      invariant done == Without(t, keys) && CopiedOutside(t, keys)
      invariant fresh(copies) && fresh(UnionOfMap(copies.parts))
      invariant OwnsEntries(copies, done, copies.parts)
      decreases keys
    {
      var k :| k in keys;
      var copy;
      ghost var part;
      panicked, copy, part := DeepCopyAny(v.entries[k], t.entries[k], objects);
      if panicked {
        return;
      }
      UnionOfUpdate(copies.parts, k, part);
      Put(copies, k, copy, done, t.entries[k], part);
      WithoutLess(t, keys, k);
      done := Map(done.entries[k := t.entries[k]]);
      keys := keys - {k};
    }
    WithoutNothing(t);
    panicked, out, owned := false, copies, {copies} + UnionOfMap(copies.parts);
  }

  method AppendCopy(copies: Slice, copy: HeapValue, ghost t: Tree, ghost i: nat, ghost part: set<object>)
    requires t.List? && i < |t.items| && |copies.parts| == i && OwnsItems(copies, FirstItems(t, i), copies.parts)
    requires Owns(copy, t.items[i], part) && copies !in part && UnionOfSeq(copies.parts) !! part
    modifies copies
    ensures OwnsItems(copies, FirstItems(t, i + 1), copies.parts)
    ensures |copies.items| == |copies.parts| == i + 1
    ensures UnionOfSeq(copies.parts) == old(UnionOfSeq(copies.parts)) + part
  {
    UnionOfSnoc(copies.parts, part);
    Append(copies, copy, FirstItems(t, i), t.items[i], part);
    FirstItemsMore(t, i);
  }

  lemma CopiedOneMore(t: Tree, i: nat)
    requires t.List? && i < |t.items| && CopiedUpTo(t, i)
    ensures Copyable(t.items[i]) ==> CopiedUpTo(t, i + 1)
    ensures !Copyable(t.items[i]) ==> !Copyable(t)
  {
  }

  method DeepCopySlice(s: Slice?, ghost t: Tree, ghost objects: set<object>)
    returns (panicked: bool, out: Slice?, ghost owned: set<object>)
    requires Denotes(SliceValue(s), t, objects)
    ensures panicked <==> !Copyable(t)
    ensures !panicked ==> Owns(SliceValue(out), t, owned) && fresh(owned) && (out == null <==> s == null)
    decreases t, 0
  {
    panicked, out, owned := false, null, {};
    if s == null {
      return;
    }
    var copies := new Slice();
    for i := 0 to |s.items|
      invariant |copies.items| == |copies.parts| == i
      invariant fresh(copies) && fresh(UnionOfSeq(copies.parts))
      invariant OwnsItems(copies, FirstItems(t, i), copies.parts)
      invariant CopiedUpTo(t, i)
    {
      var copy;
      ghost var part;
      panicked, copy, part := DeepCopyAny(s.items[i], t.items[i], objects);
      CopiedOneMore(t, i);
      if panicked {
        return;
      }
      AppendCopy(copies, copy, t, i, part);
    }
    FirstItemsAll(t);
    panicked, out, owned := false, copies, {copies} + UnionOfSeq(copies.parts);
  }

  /** The tree when only the keys outside todo have been merged. */
  ghost function PartlyOverlaid(d: Tree, s: Tree, todo: set<string>): Tree
    requires d.Map? && s.Map?
  {
    Map(map k | k in d.entries.Keys + (s.entries.Keys - todo) ::
          if k in s.entries && k !in todo then Overlay(d, s).entries[k] else d.entries[k])
  }

  lemma PartlyOverlaidLess(d: Tree, s: Tree, todo: set<string>, k: string)
    requires d.Map? && s.Map? && k in todo && todo <= s.entries.Keys
    ensures var cur := PartlyOverlaid(d, s, todo);
            PartlyOverlaid(d, s, todo - {k}) == Map(cur.entries[k := OverlayEntry(cur, k, s.entries[k])])
  {
  }

  lemma PartlyOverlaidEnds(d: Tree, s: Tree)
    requires d.Map? && s.Map?
    ensures PartlyOverlaid(d, s, s.entries.Keys) == d && PartlyOverlaid(d, s, {}) == Overlay(d, s)
  {
  }

  ghost function OverlayEntry(d: Tree, k: string, x: Tree): Tree
    requires d.Map?
  {
    if k in d.entries then Overlay(d.entries[k], x) else x
  }

  /** The map and all it owns. */
  ghost function Extent(vars: Variables): set<object>
    reads vars
  {
    {vars} + UnionOfMap(vars.parts)
  }

  /** Every entry outside keys can be merged. */
  ghost predicate MergedOutside(d: Tree, s: Tree, keys: set<string>)
    requires d.Map? && s.Map?
  {
    forall k :: k in s.entries && k !in keys ==> EntryMergeable(d, k, s.entries[k])
  }

  /** Keys that are still to be merged are as they were. */
  lemma TodoUntouched(d: Tree, s: Tree, keys: set<string>, k: string)
    requires d.Map? && s.Map? && k in keys && k in s.entries
    ensures EntryMergeable(PartlyOverlaid(d, s, keys), k, s.entries[k]) == EntryMergeable(d, k, s.entries[k])
  {
  }

  /** Merges src into dst, whose objects are its own; keys may come in any order. Storing in nil Variables panics. */
  method DeepMerge(dst: Variables?, src: Variables?, ghost d: Tree, ghost s: Tree, ghost owned: set<object>,
                   ghost objects: set<object>)
    returns (panicked: bool, ghost now: set<object>)
    requires Owns(Dict(dst), d, owned) && Denotes(Dict(src), s, objects) && owned !! objects
    modifies owned
    ensures panicked <==> !Mergeable(d, s)
    ensures !panicked ==> Owns(Dict(dst), Overlay(d, s), now) && fresh(now - owned)
    decreases s, 0
  {
    panicked, now := false, owned;
    if src == null || src.entries == map[] {
      NothingToMerge(d, s);
      return;
    }
    if dst == null {
      panicked := true;
      return;
    }
    panicked, now := MergeAll(dst, src, d, s, owned, objects);
  }

  lemma NothingToMerge(d: Tree, s: Tree)
    requires d.IsVariables() && s.IsEmpty()
    ensures Mergeable(d, s) && Overlay(d, s) == d
  {
    if d.Map? && s.Map? {
      OverlayEmpty(d);
    }
  }

  method MergeAll(dst: Variables, src: Variables, ghost d: Tree, ghost s: Tree, ghost owned: set<object>,
                  ghost objects: set<object>)
    returns (panicked: bool, ghost now: set<object>)
    requires Owns(Dict(dst), d, owned) && Denotes(Dict(src), s, objects) && owned !! objects && !s.IsEmpty()
    modifies owned
    ensures panicked <==> !Mergeable(d, s)
    ensures !panicked ==> Owns(Dict(dst), Overlay(d, s), now) && fresh(now - owned)
    decreases s, 0, 0
  {
    var keys := src.entries.Keys;
    now := owned;
    PartlyOverlaidEnds(d, s);
    while keys != {}
      invariant keys <= src.entries.Keys && MergedOutside(d, s, keys)
      invariant Denotes(Dict(src), s, objects) && Extent(dst) !! objects && fresh(Extent(dst) - owned)
      invariant OwnsEntries(dst, PartlyOverlaid(d, s, keys), dst.parts)
      decreases keys
    {
      var k :| k in keys;
      PartlyOverlaidLess(d, s, keys, k);
      TodoUntouched(d, s, keys, k);
      panicked := MergeEntry(dst, k, src.entries[k], PartlyOverlaid(d, s, keys), s.entries[k], objects);
      if panicked {
        return;
      }
      keys := keys - {k};
    }
    panicked, now := false, Extent(dst);
  }

  /** One key: two maps are merged in place, anything else is replaced by a copy. */
  method MergeEntry(dst: Variables, k: string, sv: HeapValue, ghost d: Tree, ghost x: Tree, ghost objects: set<object>)
    returns (panicked: bool)
    requires d.Map? && OwnsEntries(dst, d, dst.parts) && Denotes(sv, x, objects) && Extent(dst) !! objects
    modifies Extent(dst)
    ensures panicked <==> !EntryMergeable(d, k, x)
    ensures !panicked ==> OwnsEntries(dst, Map(d.entries[k := OverlayEntry(d, k, x)]), dst.parts)
    ensures !panicked ==> fresh(Extent(dst) - old(Extent(dst)))
    decreases x, 2
  {
    if k in dst.entries && dst.entries[k].Dict? && sv.Dict? {
      panicked := MergeNested(dst, k, sv.vars, d, x, objects);
    } else {
      panicked := ReplaceEntry(dst, k, sv, d, x, objects);
    }
  }

  method MergeNested(dst: Variables, k: string, src: Variables?, ghost d: Tree, ghost x: Tree,
                     ghost objects: set<object>)
    returns (panicked: bool)
    requires d.Map? && OwnsEntries(dst, d, dst.parts) && Denotes(Dict(src), x, objects) && Extent(dst) !! objects
    requires k in dst.entries && dst.entries[k].Dict?
    modifies Extent(dst)
    ensures panicked <==> !Mergeable(d.entries[k], x)
    ensures !panicked ==> OwnsEntries(dst, Map(d.entries[k := Overlay(d.entries[k], x)]), dst.parts)
    ensures !panicked ==> fresh(Extent(dst) - old(Extent(dst)))
    decreases x, 1
  {
    UnionOfUpdate(dst.parts, k, {});
    ghost var part;
    panicked, part := DeepMerge(dst.entries[k].vars, src, d.entries[k], x, dst.parts[k], objects);
    if !panicked {
      UnionOfUpdate(dst.parts, k, part);
      Put(dst, k, dst.entries[k], d, Overlay(d.entries[k], x), part);
    }
  }

  method ReplaceEntry(dst: Variables, k: string, sv: HeapValue, ghost d: Tree, ghost x: Tree,
                      ghost objects: set<object>)
    returns (panicked: bool)
    requires d.Map? && OwnsEntries(dst, d, dst.parts) && Denotes(sv, x, objects)
    modifies dst
    ensures panicked <==> !Copyable(x)
    ensures !panicked ==> OwnsEntries(dst, Map(d.entries[k := x]), dst.parts)
    ensures !panicked ==> fresh(Extent(dst) - old(Extent(dst)))
  {
    ghost var part;
    var copy;
    panicked, copy, part := DeepCopyAny(sv, x, objects);
    if !panicked {
      UnionOfUpdate(dst.parts, k, part);
      Put(dst, k, copy, d, x, part);
    }
  }

  /** Nil variables are given a map to be merged into. */
  function Made(t: Tree): Tree {
    if t.NilMap? then NO_VARIABLES else t
  }

  /** A new map for the overlay of the inputs, which stay as they are and share no map or list with it; nil for nils. */
  method MergeVariables(base: Variables?, overrides: Variables?, ghost b: Tree, ghost o: Tree,
                        ghost objects: set<object>)
    returns (panicked: bool, result: Variables?, ghost owned: set<object>)
    requires Denotes(Dict(base), b, objects) && Denotes(Dict(overrides), o, objects)
    ensures panicked <==> !Copyable(b) || !Mergeable(Made(b), o)
    ensures !panicked ==> (result == null <==> base == null && overrides == null)
    ensures !panicked && result != null ==> Owns(Dict(result), Overlay(Made(b), o), owned) && fresh(owned)
  {
    panicked, result, owned := false, null, {};
    if base == null && overrides == null {
      return;
    }
    panicked, result, owned := DeepCopyVariables(base, b, objects);
    if panicked {
      return;
    }
    if result == null {
      result := new Variables();
      owned := {result};
    }
    panicked, owned := DeepMerge(result, overrides, Made(b), o, owned, objects);
  }
}
