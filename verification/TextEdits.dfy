/** Replacing disjoint ranges of a text: splicing from back to front is one simultaneous substitution. */
module TextEdits {
  import opened Sequences
  import opened Ordering

  datatype Edit = Edit(start: nat, end: nat, text: string)

  predicate Earlier(a: Edit, b: Edit) {
    a.start < b.start
  }

  predicate Later(a: Edit, b: Edit) {
    a.start > b.start
  }

  ghost predicate Disjoint(a: Edit, b: Edit) {
    a.end <= b.start || b.end <= a.start
  }

  /** Nonempty, pairwise disjoint ranges inside a text of the given length, in any order. */
  ghost predicate Applicable(edits: seq<Edit>, length: nat) {
    && (forall i :: 0 <= i < |edits| ==> edits[i].start < edits[i].end <= length)
    && (forall i, j :: 0 <= i < j < |edits| ==> Disjoint(edits[i], edits[j]))
  }

  /** The same from first to last. */
  ghost predicate Ascending(edits: seq<Edit>, length: nat) {
    && (forall i :: 0 <= i < |edits| ==> edits[i].start < edits[i].end <= length)
    && (forall i, j :: 0 <= i < j < |edits| ==> edits[i].end <= edits[j].start)
  }

  /** src from position from on, with the ranges from the i-th on replaced at once. */
  function SubstituteFrom(src: string, edits: seq<Edit>, i: nat, from: nat): string
    requires Ascending(edits, |src|) && i <= |edits| && from <= |src|
    requires i < |edits| ==> from <= edits[i].start
    decreases |edits| - i
  {
    if i == |edits| then src[from..]
    else src[from..edits[i].start] + edits[i].text + SubstituteFrom(src, edits, i + 1, edits[i].end)
  }

  /** src with every range replaced at once. */
  function Substitute(src: string, edits: seq<Edit>): string
    requires Ascending(edits, |src|)
  {
    SubstituteFrom(src, edits, 0, 0)
  }

  lemma EarlierIsStrictOrder(edits: seq<Edit>, length: nat)
    requires Applicable(edits, length)
    ensures StrictOrderOn(Earlier, Elements(edits)) && StrictOrderOn(Later, Elements(edits))
    ensures NoDuplicates(edits)
  {
    forall a, b | a in Elements(edits) && b in Elements(edits) && a != b ensures a.start != b.start {
      var i :| 0 <= i < |edits| && edits[i] == a;
      var j :| 0 <= j < |edits| && edits[j] == b;
      assert i < j ==> Disjoint(edits[i], edits[j]);
      assert j < i ==> Disjoint(edits[j], edits[i]);
    }
    forall i, j | 0 <= i < j < |edits| ensures edits[i] != edits[j] {
      assert Disjoint(edits[i], edits[j]);
    }
  }

  lemma MembersDisjoint(edits: seq<Edit>, length: nat, a: Edit, b: Edit)
    requires Applicable(edits, length) && a in edits && b in edits && a != b
    ensures Disjoint(a, b)
  {
    var i :| 0 <= i < |edits| && edits[i] == a;
    var j :| 0 <= j < |edits| && edits[j] == b;
    assert i < j ==> Disjoint(edits[i], edits[j]);
    assert j < i ==> Disjoint(edits[j], edits[i]);
  }

  lemma SortedIsAscending(edits: seq<Edit>, length: nat)
    requires Applicable(edits, length)
    ensures Ascending(Sort(Earlier, edits), length)
    ensures Elements(Sort(Earlier, edits)) == Elements(edits)
  {
    EarlierIsStrictOrder(edits, length);
    SortSorted(Earlier, edits);
    SortElements(Earlier, edits);
    var sorted := Sort(Earlier, edits);
    forall i | 0 <= i < |sorted| ensures sorted[i] in edits {
      assert sorted[i] in Elements(sorted);
    }
    forall i, j | 0 <= i < j < |sorted| ensures sorted[i].end <= sorted[j].start {
      assert Earlier(sorted[i], sorted[j]);
      assert sorted[i] in edits && sorted[j] in edits;
      MembersDisjoint(edits, length, sorted[i], sorted[j]);
    }
  }

  function Reverse(edits: seq<Edit>): seq<Edit> {
    seq(|edits|, i requires 0 <= i < |edits| => edits[|edits| - 1 - i])
  }

  lemma ReverseElements(xs: seq<Edit>)
    ensures Elements(Reverse(xs)) == Elements(xs)
  {
    var back := Reverse(xs);
    forall x | x in xs ensures x in back {
      var i :| 0 <= i < |xs| && xs[i] == x;
      assert back[|xs| - 1 - i] == x;
    }
  }

  /** Sorting by descending start is sorting by ascending start, reversed. */
  lemma DescendingReversed(edits: seq<Edit>, length: nat)
    requires Applicable(edits, length)
    ensures Reverse(Sort(Later, edits)) == Sort(Earlier, edits)
  {
    EarlierIsStrictOrder(edits, length);
    SortSorted(Earlier, edits);
    SortSorted(Later, edits);
    SortElements(Earlier, edits);
    SortElements(Later, edits);
    var desc, back := Sort(Later, edits), Reverse(Sort(Later, edits));
    forall i, j | 0 <= i < j < |back| ensures Earlier(back[i], back[j]) {
      assert Later(desc[|desc| - 1 - j], desc[|desc| - 1 - i]);
    }
    ReverseElements(desc);
    SortedUnique(Earlier, back, Sort(Earlier, edits));
  }

  lemma BackSlice(x: string, y: string, i: nat, j: nat)
    requires i <= j <= |y|
    ensures (x + y)[|x| + i..|x| + j] == y[i..j]
  {
  }

  lemma FrontSlice(x: string, y: string, i: nat, j: nat)
    requires i <= j <= |x|
    ensures (x + y)[i..j] == x[i..j]
  {
  }

  lemma SliceSlice(x: string, a: nat, b: nat, i: nat, j: nat)
    requires a <= b <= |x| && i <= j <= b - a
    ensures x[a..b][i..j] == x[a + i..a + j]
  {
    assert forall k :: 0 <= k < j - i ==> x[a..b][i..j][k] == x[a + i..a + j][k];
  }

  lemma SliceJoin(x: string, a: nat, b: nat, c: nat)
    requires a <= b <= c <= |x|
    ensures x[a..c] == x[a..b] + x[b..c]
  {
  }

  lemma Regroup(a: string, b: string, c: string, d: string)
    ensures (a + b) + c + d == a + (b + c + d)
  {
  }

  lemma SubstituteSplit(src: string, edits: seq<Edit>, i: nat, mid: nat)
    requires Ascending(edits, |src|) && i <= |edits| && mid <= |src| && (i < |edits| ==> mid <= edits[i].start)
    ensures SubstituteFrom(src, edits, i, 0) == src[..mid] + SubstituteFrom(src, edits, i, mid)
  {
    if i == |edits| {
      SliceJoin(src, 0, mid, |src|);
    } else {
      SliceJoin(src, 0, mid, edits[i].start);
      Regroup(src[0..mid], src[mid..edits[i].start], edits[i].text, SubstituteFrom(src, edits, i + 1, edits[i].end));
    }
  }

  /** One splice in front of the ranges replaced so far extends the substitution by one range. */
  lemma SpliceInFront(src: string, edits: seq<Edit>, i: nat, out: string)
    requires Ascending(edits, |src|) && i < |edits|
    requires out == SubstituteFrom(src, edits, i + 1, 0)
    ensures edits[i].start <= edits[i].end <= |out|
    ensures out[..edits[i].start] + edits[i].text + out[edits[i].end..] == SubstituteFrom(src, edits, i, 0)
  {
    var edit := edits[i];
    SubstituteSplit(src, edits, i + 1, edit.end);
    var x, y := src[..edit.end], SubstituteFrom(src, edits, i + 1, edit.end);
    BackSlice(x, y, 0, |y|);
    FrontSlice(x, y, 0, edit.start);
    assert out[edit.end..] == y;
    assert out[..edit.start] == src[0..edit.start];
  }

  lemma ReverseAt(xs: seq<Edit>, i: nat)
    requires i < |xs|
    ensures |Reverse(xs)| == |xs| && Reverse(xs)[|xs| - 1 - i] == xs[i]
  {
  }

  /** Splices the replacements in one after the other, from the highest start to the lowest. */
  method Splice(src: string, replacements: seq<Edit>) returns (out: string)
    requires Applicable(replacements, |src|)
    ensures Ascending(Sort(Earlier, replacements), |src|)
    ensures out == Substitute(src, Sort(Earlier, replacements))
  {
    SortedIsAscending(replacements, |src|);
    DescendingReversed(replacements, |src|);
    out := SpliceInOrder(src, Sort(Later, replacements));
  }

  method SpliceInOrder(src: string, ordered: seq<Edit>) returns (out: string)
    requires Ascending(Reverse(ordered), |src|)
    ensures out == Substitute(src, Reverse(ordered))
  {
    ghost var asc := Reverse(ordered);
    out := src;
    assert src[0..] == src;
    for i := 0 to |ordered|
      invariant out == SubstituteFrom(src, asc, |ordered| - i, 0)
    {
      var replacement := ordered[i];
      ReverseAt(ordered, i);
      SpliceInFront(src, asc, |ordered| - 1 - i, out);
      var replaced := out[..replacement.start];
      replaced := replaced + replacement.text;
      out := replaced + out[replacement.end..];
    }
  }

  // Where things end up.

  /** What the i-th and later ranges that end by pos add to the length in front of pos. */
  function Growth(edits: seq<Edit>, i: nat, pos: nat): int
    requires i <= |edits|
    decreases |edits| - i
  {
    if i == |edits| then 0
    else Growth(edits, i + 1, pos) +
         if edits[i].end <= pos then |edits[i].text| - (edits[i].end - edits[i].start) else 0
  }

  /** The new position of pos. */
  function Shift(edits: seq<Edit>, pos: nat): int {
    pos + Growth(edits, 0, pos)
  }

  lemma {:induction false} NoGrowth(edits: seq<Edit>, i: nat, pos: nat)
    requires i <= |edits| && forall k :: i <= k < |edits| ==> edits[k].end > pos
    ensures Growth(edits, i, pos) == 0
    decreases |edits| - i
  {
    if i < |edits| {
      NoGrowth(edits, i + 1, pos);
    }
  }

  /** text stands in out at position p. */
  ghost predicate ReadsAt(out: string, p: int, text: string) {
    0 <= p <= p + |text| <= |out| && out[p..p + |text|] == text
  }

  lemma ReadsInBack(x: string, y: string, p: int, text: string)
    requires ReadsAt(y, p, text)
    ensures ReadsAt(x + y, |x| + p, text)
  {
    BackSlice(x, y, p, p + |text|);
  }

  lemma ReadsInFront(x: string, y: string, p: int, text: string)
    requires ReadsAt(x, p, text)
    ensures ReadsAt(x + y, p, text)
  {
    FrontSlice(x, y, p, p + |text|);
  }

  lemma ReadsSlice(src: string, from: nat, to: nat, s: nat, e: nat)
    requires from <= s <= e <= to <= |src|
    ensures ReadsAt(src[from..to], s - from, src[s..e])
  {
    SliceSlice(src, from, to, s - from, e - from);
  }

  /** The text in the gap before an edit keeps its distance from the start of the gap. */
  lemma UntouchedGap(src: string, edits: seq<Edit>, i: nat, from: nat, s: nat, e: nat, q: int)
    requires Ascending(edits, |src|) && i <= |edits| && from <= s <= e <= |src|
    requires i < |edits| ==> e <= edits[i].start
    requires q == s - from
    ensures ReadsAt(SubstituteFrom(src, edits, i, from), q, src[s..e])
  {
    if i == |edits| {
      ReadsSlice(src, from, |src|, s, e);
    } else {
      var edit := edits[i];
      var gap, back := src[from..edit.start], SubstituteFrom(src, edits, i + 1, edit.end);
      ReadsSlice(src, from, edit.start, s, e);
      ReadsInFront(gap, edit.text, s - from, src[s..e]);
      ReadsInFront(gap + edit.text, back, s - from, src[s..e]);
    }
  }

  /** No range with index i or higher meets the stretch from s to e. */
  ghost predicate Misses(edits: seq<Edit>, i: nat, s: nat, e: nat)
    requires i <= |edits|
  {
    forall k :: i <= k < |edits| ==> edits[k].end <= s || e <= edits[k].start
  }

  /** Text that stands beyond an edit moves with what follows the edit. */
  lemma UntouchedBehind(src: string, edits: seq<Edit>, i: nat, from: nat, p: int, text: string, q: int)
    requires Ascending(edits, |src|) && i < |edits| && from <= edits[i].start
    requires ReadsAt(SubstituteFrom(src, edits, i + 1, edits[i].end), p, text)
    requires q == edits[i].start - from + |edits[i].text| + p
    ensures ReadsAt(SubstituteFrom(src, edits, i, from), q, text)
  {
    var edit := edits[i];
    var gap, back := src[from..edit.start], SubstituteFrom(src, edits, i + 1, edit.end);
    ReadsInBack(gap + edit.text, back, p, text);
  }

  lemma {:induction false} UntouchedFrom(src: string, edits: seq<Edit>, i: nat, from: nat, s: nat, e: nat, q: int)
    requires Ascending(edits, |src|) && i <= |edits| && (i < |edits| ==> from <= edits[i].start)
    requires from <= s <= e <= |src| && Misses(edits, i, s, e) && q == s + Growth(edits, i, s) - from
    ensures ReadsAt(SubstituteFrom(src, edits, i, from), q, src[s..e])
    decreases |edits| - i
  {
    if i < |edits| && edits[i].end <= s {
      var end := edits[i].end;
      var p := s + Growth(edits, i + 1, s) - end;
      UntouchedFrom(src, edits, i + 1, end, s, e, p);
      UntouchedBehind(src, edits, i, from, p, src[s..e], q);
    } else {
      if i < |edits| {
        NoGrowth(edits, i, s);
      }
      UntouchedGap(src, edits, i, from, s, e, q);
    }
  }

  /** Text outside the replaced ranges is unchanged, at its shifted place. */
  lemma UntouchedText(src: string, edits: seq<Edit>, s: nat, e: nat)
    requires Ascending(edits, |src|) && s <= e <= |src| && Misses(edits, 0, s, e)
    ensures ReadsAt(Substitute(src, edits), Shift(edits, s), src[s..e])
  {
    UntouchedFrom(src, edits, 0, 0, s, e, Shift(edits, s));
  }

  lemma {:induction false} ReplacedFrom(src: string, edits: seq<Edit>, i: nat, from: nat, k: nat)
    requires Ascending(edits, |src|) && i <= k < |edits| && from <= edits[i].start && from <= |src|
    ensures ReadsAt(SubstituteFrom(src, edits, i, from),
                    edits[k].start + Growth(edits, i, edits[k].start) - from, edits[k].text)
    decreases |edits| - i
  {
    var edit := edits[i];
    var gap, back := src[from..edit.start], SubstituteFrom(src, edits, i + 1, edit.end);
    if i == k {
      NoGrowth(edits, i, edit.start);
      ReadsInBack(gap, edit.text, 0, edit.text);
      ReadsInFront(gap + edit.text, back, edit.start - from, edit.text);
    } else {
      ReplacedFrom(src, edits, i + 1, edit.end, k);
      var place := edits[k].start + Growth(edits, i + 1, edits[k].start) - edit.end;
      ReadsInBack(gap + edit.text, back, place, edits[k].text);
    }
  }

  /** Every replaced range reads as its replacement, at its shifted place. */
  lemma ReplacedText(src: string, edits: seq<Edit>, edit: Edit)
    requires Ascending(edits, |src|) && edit in edits
    ensures ReadsAt(Substitute(src, edits), Shift(edits, edit.start), edit.text)
  {
    var k :| 0 <= k < |edits| && edits[k] == edit;
    ReplacedFrom(src, edits, 0, 0, k);
  }

  // Positions.

  /** Positions outside the ranges keep their order. */
  lemma {:induction false} GrowthKeepsOrder(edits: seq<Edit>, length: nat, i: nat, p: nat, q: nat)
    requires Ascending(edits, length) && i <= |edits| && p <= q && Misses(edits, i, p, p) && Misses(edits, i, q, q)
    ensures p + Growth(edits, i, p) <= q + Growth(edits, i, q)
    decreases |edits| - i
  {
    if i < |edits| {
      var edit := edits[i];
      if edit.end <= p {
        GrowthKeepsOrder(edits, length, i + 1, p, q);
      } else {
        NoGrowth(edits, i, p);
        if edit.end <= q {
          NoGrowth(edits, i + 1, edit.end);
          GrowthKeepsOrder(edits, length, i + 1, edit.end, q);
        } else {
          NoGrowth(edits, i, q);
        }
      }
    }
  }

  /** What stands behind a range comes to stand behind its replacement. */
  lemma {:induction false} GrowthOverEdit(edits: seq<Edit>, length: nat, i: nat, k: nat, q: nat)
    requires Ascending(edits, length) && i <= k < |edits| && edits[k].end <= q && Misses(edits, i, q, q)
    ensures edits[k].start + Growth(edits, i, edits[k].start) + |edits[k].text| <= q + Growth(edits, i, q)
    decreases |edits| - i
  {
    var edit := edits[k];
    if i == k {
      NoGrowth(edits, k, edit.start);
      NoGrowth(edits, k + 1, edit.end);
      GrowthKeepsOrder(edits, length, k + 1, edit.end, q);
    } else {
      GrowthOverEdit(edits, length, i + 1, k, q);
    }
  }

  /** Text that meets no range keeps its length. */
  lemma {:induction false} GrowthOverText(edits: seq<Edit>, length: nat, i: nat, s: nat, e: nat)
    requires Ascending(edits, length) && i <= |edits| && s <= e && Misses(edits, i, s, e)
    ensures Growth(edits, i, s) == Growth(edits, i, e)
    decreases |edits| - i
  {
    if i < |edits| {
      GrowthOverText(edits, length, i + 1, s, e);
    }
  }

  lemma ShiftNonnegative(edits: seq<Edit>, length: nat, pos: nat)
    requires Ascending(edits, length) && Misses(edits, 0, pos, pos)
    ensures Shift(edits, pos) >= 0
  {
    NoGrowth(edits, 0, 0);
    GrowthKeepsOrder(edits, length, 0, 0, pos);
  }

  /** The edits of a text are applied alike in whatever order they were found. */
  lemma FindingOrderIrrelevant(xs: seq<Edit>, ys: seq<Edit>, length: nat)
    requires Applicable(xs, length) && Applicable(ys, length) && Elements(xs) == Elements(ys)
    ensures Sort(Earlier, xs) == Sort(Earlier, ys)
  {
    EarlierIsStrictOrder(xs, length);
    EarlierIsStrictOrder(ys, length);
    SortSorted(Earlier, xs);
    SortSorted(Earlier, ys);
    SortElements(Earlier, xs);
    SortElements(Earlier, ys);
    SortedUnique(Earlier, Sort(Earlier, xs), Sort(Earlier, ys));
  }
}
