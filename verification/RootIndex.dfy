/** The multi-architecture root index at a bundle's tag, internal/oci/root_index.go and internal/oci/bundle_index.go. */
module RootIndex {
  import opened Wrappers
  import opened Sequences
  import opened Ordering
  import opened Oci
  import opened Registry

  function ArchitectureOf(d: Descriptor): string {
    if d.platform.Some? then d.platform.value.architecture else ""
  }

  predicate ByArchitecture(a: Descriptor, b: Descriptor) {
    Below(ArchitectureOf(a), ArchitectureOf(b))
  }

  /** An index entry that names a bundle for some platform. */
  predicate BundleEntry(d: Descriptor) {
    d.mediaType == ImageIndex && d.artifactType == Bundle && d.platform.Some?
  }

  predicate PreservedEntry(d: Descriptor, arch: string) {
    BundleEntry(d) && ArchitectureOf(d) != "" && ArchitectureOf(d) != arch
  }

  /** The first n entries without those a push for an architecture supersedes. */
  function Preserved(entries: seq<Descriptor>, arch: string, n: nat): seq<Descriptor>
    requires n <= |entries|
  {
    if n == 0 then []
    else if PreservedEntry(entries[n - 1], arch) then Preserved(entries, arch, n - 1) + [entries[n - 1]]
    else Preserved(entries, arch, n - 1)
  }

  /** After a push of child: the preserved entries and the child, in some order sorted by architecture. */
  ghost predicate Merges(before: seq<Descriptor>, child: Descriptor, after: seq<Descriptor>) {
    && multiset(after) == multiset(Preserved(before, ArchitectureOf(child), |before|) + [child])
    && Ordered(ByArchitecture, after)
  }

  /** The entries a push to the tag starts from: none without a tag, and none when the tag holds another artifact. */
  function RootEntries(codec: Codec, content: ContentMap, tags: map<string, Descriptor>, tag: string)
    : Result<seq<Descriptor>, TransferError>
  {
    if tag !in tags then Ok([])
    else match FetchBytes(codec, content, tags[tag])
      case Err(e) => Err(e)
      case Ok(data) =>
        match codec.unmarshal(data)
        case None => Err(ParseExistingContent(tag))
        case Some(index) => Ok(if index.artifactType == NoArtifact then index.manifests else [])
  }

  function TaggedRoot(tags: map<string, Descriptor>, tag: string): Option<Descriptor> {
    if tag in tags then Some(tags[tag]) else None
  }

  method ExistingRootEntries(dst: Repository, tag: string, arch: string)
    returns (r: Result<(seq<Descriptor>, Option<Descriptor>), TransferError>)
    ensures var entries := RootEntries(dst.codec, dst.content, dst.tags, tag);
            match r
            case Ok((keep, root)) =>
              && entries.Ok? && keep == Preserved(entries.value, arch, |entries.value|)
              && root == TaggedRoot(dst.tags, tag)
            case Err(e) => entries == Err(e)
  {
    if tag !in dst.tags {
      return Ok(([], None));
    }
    var desc := dst.tags[tag];
    var data := FetchBytes(dst.codec, dst.content, desc);
    if data.Err? {
      return Err(data.error);
    }
    var idx := dst.codec.unmarshal(data.value);
    if idx.None? {
      return Err(ParseExistingContent(tag));
    }
    if idx.value.artifactType != NoArtifact {
      return Ok(([], Some(desc)));
    }
    var manifests := idx.value.manifests;
    var keep: seq<Descriptor> := [];
    for i := 0 to |manifests|
      invariant keep == Preserved(manifests, arch, i)
    {
      var m := manifests[i];
      if m.mediaType != ImageIndex || m.artifactType != Bundle {
        continue;
      }
      if m.platform.None? || m.platform.value.architecture == "" || m.platform.value.architecture == arch {
        continue;
      }
      keep := keep + [m];
    }
    return Ok((keep, Some(desc)));
  }

  lemma ByArchitectureIsPartialOrder(xs: set<Descriptor>)
    ensures PartialOrderOn(ByArchitecture, xs)
  {
    forall a: Descriptor ensures !ByArchitecture(a, a) { BelowIrreflexive(ArchitectureOf(a)); }
    forall a, b, c | ByArchitecture(a, b) && ByArchitecture(b, c) ensures ByArchitecture(a, c) {
      BelowTransitive(ArchitectureOf(a), ArchitectureOf(b), ArchitectureOf(c));
    }
  }

  /** All that is known of the sort: which of two entries with one architecture comes first is left open. */
  method SortByArchitecture(entries: seq<Descriptor>) returns (sorted: seq<Descriptor>)
    ensures multiset(sorted) == multiset(entries) && Ordered(ByArchitecture, sorted)
  {
    ByArchitectureIsPartialOrder(Elements(entries));
    SortOrdered(ByArchitecture, entries);
    SortElements(ByArchitecture, entries);
    sorted := Sort(ByArchitecture, entries);
  }

  datatype MergedRoot =
    MergedRoot(entries: seq<Descriptor>, data: Bytes, desc: Descriptor, current: Option<Descriptor>)

  method MergeRootIndex(dst: Repository, tag: string, child: Descriptor) returns (r: Result<MergedRoot, TransferError>)
    requires child.platform.Some?
    ensures var entries := RootEntries(dst.codec, dst.content, dst.tags, tag);
            match r
            case Ok(root) =>
              && entries.Ok? && Merges(entries.value, child, root.entries)
              && root.data == dst.codec.marshal(Index(NoArtifact, root.entries))
              && root.desc == IndexDescriptor(dst.codec, root.data)
              && root.current == TaggedRoot(dst.tags, tag)
            case Err(e) => entries == Err(e)
  {
    var existing := ExistingRootEntries(dst, tag, child.platform.value.architecture);
    if existing.Err? {
      return Err(existing.error);
    }
    var entries := existing.value.0 + [child];
    entries := SortByArchitecture(entries);
    var data := dst.codec.marshal(Index(NoArtifact, entries));
    return Ok(MergedRoot(entries, data, IndexDescriptor(dst.codec, data), existing.value.1));
  }

  // The reader.

  /** The first entry for an architecture, from position i on. */
  function EntryFor(entries: seq<Descriptor>, arch: string, i: nat): Option<Descriptor>
    requires i <= |entries|
    decreases |entries| - i
  {
    if i == |entries| then None
    else if BundleEntry(entries[i]) && ArchitectureOf(entries[i]) == arch then Some(entries[i])
    else EntryFor(entries, arch, i + 1)
  }

  /** The architectures of the bundle entries among the first n. */
  function Architectures(entries: seq<Descriptor>, n: nat): seq<string>
    requires n <= |entries|
  {
    if n == 0 then []
    else if BundleEntry(entries[n - 1]) then Architectures(entries, n - 1) + [ArchitectureOf(entries[n - 1])]
    else Architectures(entries, n - 1)
  }

  /** What reading an architecture of a reference gives. */
  function Child(codec: Codec, content: ContentMap, tags: map<string, Descriptor>, reference: string, arch: string)
    : Result<(Descriptor, Bytes), TransferError>
  {
    if reference !in tags then Err(ResolveReference(reference))
    else match FetchBytes(codec, content, tags[reference])
      case Err(e) => Err(e)
      case Ok(data) =>
        match codec.unmarshal(data)
        case None => Err(InvalidBundle)
        case Some(index) =>
          if index.artifactType == Bundle then Ok((tags[reference], data))
          else match EntryFor(index.manifests, arch, 0)
            case Some(entry) => ChildContent(codec, content, entry)
            case None =>
              var available := Architectures(index.manifests, |index.manifests|);
              Err(if available == [] then InvalidBundle else ArchitectureUnavailable(available))
  }

  function ChildContent(codec: Codec, content: ContentMap, entry: Descriptor)
    : Result<(Descriptor, Bytes), TransferError>
  {
    match FetchBytes(codec, content, entry)
    case Err(e) => Err(e)
    case Ok(data) =>
      var child := codec.unmarshal(data);
      if child.None? || child.value.artifactType != Bundle then Err(InvalidBundle) else Ok((entry, data))
  }

  method ResolveBundleChild(src: Repository, reference: string, arch: string, hostArchitecture: string)
    returns (r: Result<(Descriptor, Bytes), TransferError>)
    ensures r == Child(src.codec, src.content, src.tags, reference, if arch == "" then hostArchitecture else arch)
  {
    var wanted := arch;
    if wanted == "" {
      wanted := hostArchitecture;
    }
    if reference !in src.tags {
      return Err(ResolveReference(reference));
    }
    var desc := src.tags[reference];
    var data := FetchBytes(src.codec, src.content, desc);
    if data.Err? {
      return Err(data.error);
    }
    var idx := src.codec.unmarshal(data.value);
    if idx.None? {
      return Err(InvalidBundle);
    }
    if idx.value.artifactType == Bundle {
      return Ok((desc, data.value));
    }
    var manifests := idx.value.manifests;
    var available: seq<string> := [];
    for i := 0 to |manifests|
      invariant available == Architectures(manifests, i)
      invariant EntryFor(manifests, wanted, 0) == EntryFor(manifests, wanted, i)
    {
      var m := manifests[i];
      if m.mediaType != ImageIndex || m.artifactType != Bundle || m.platform.None? {
        continue;
      }
      if m.platform.value.architecture != wanted {
        available := available + [m.platform.value.architecture];
        continue;
      }
      var childData := FetchBytes(src.codec, src.content, m);
      if childData.Err? {
        return Err(childData.error);
      }
      var child := src.codec.unmarshal(childData.value);
      if child.None? || child.value.artifactType != Bundle {
        return Err(InvalidBundle);
      }
      return Ok((m, childData.value));
    }
    if |available| > 0 {
      return Err(ArchitectureUnavailable(available));
    }
    return Err(InvalidBundle);
  }

  // The root index as a map from architecture to child.

  /** A descriptor that BundleChildDescriptor can make for a named architecture. */
  predicate IsBundleChild(d: Descriptor) {
    BundleEntry(d) && ArchitectureOf(d) != ""
  }

  ghost predicate Represents(entries: seq<Descriptor>, children: map<string, Descriptor>) {
    && StrictlySorted(ByArchitecture, entries)
    && (forall d :: d in entries ==>
          IsBundleChild(d) && ArchitectureOf(d) in children && children[ArchitectureOf(d)] == d)
    && (forall a :: a in children ==> children[a] in entries && ArchitectureOf(children[a]) == a)
  }

  lemma {:induction false} PreservedMembers(entries: seq<Descriptor>, arch: string, n: nat)
    requires n <= |entries|
    ensures forall d :: d in Preserved(entries, arch, n) <==> d in entries[..n] && PreservedEntry(d, arch)
    ensures NoDuplicates(entries) ==> NoDuplicates(Preserved(entries, arch, n))
  {
    if n > 0 {
      PreservedMembers(entries, arch, n - 1);
      assert entries[..n] == entries[..n - 1] + [entries[n - 1]];
    }
  }

  lemma RepresentsDistinct(entries: seq<Descriptor>, children: map<string, Descriptor>)
    requires Represents(entries, children)
    ensures NoDuplicates(entries) && StrictOrderOn(ByArchitecture, Elements(entries))
  {
    ByArchitectureIsPartialOrder(Elements(entries));
    StrictlySortedNoDuplicates(ByArchitecture, entries);
    forall a, b | a in Elements(entries) && b in Elements(entries) && a != b
      ensures ByArchitecture(a, b) || ByArchitecture(b, a) {
      BelowConnected(ArchitectureOf(a), ArchitectureOf(b));
    }
  }

  lemma MergedMembers(before: seq<Descriptor>, child: Descriptor, after: seq<Descriptor>)
    requires Merges(before, child, after)
    ensures forall d :: d in after <==> d == child || (d in before && PreservedEntry(d, ArchitectureOf(child)))
    ensures NoDuplicates(before) ==> NoDuplicates(after)
  {
    var kept := Preserved(before, ArchitectureOf(child), |before|);
    PreservedMembers(before, ArchitectureOf(child), |before|);
    assert before[..|before|] == before;
    var all := kept + [child];
    assert forall d :: d in after <==> d in multiset(after);
    assert forall d :: d in all <==> d in multiset(all);
    if NoDuplicates(before) {
      NoDuplicatesConcat(kept, [child]);
      NoDuplicatesCardinality(all);
      assert |after| == |multiset(after)| && |all| == |multiset(all)|;
      assert Elements(after) == Elements(all);
      ElementsCardinality(after);
    }
  }

  lemma {:induction false} PreservedCount(entries: seq<Descriptor>, arch: string, n: nat, d: Descriptor)
    requires n <= |entries|
    ensures multiset(Preserved(entries, arch, n))[d] ==
            if PreservedEntry(d, arch) then multiset(entries[..n])[d] else 0
  {
    if n > 0 {
      PreservedCount(entries, arch, n - 1, d);
      assert entries[..n] == entries[..n - 1] + [entries[n - 1]];
    }
  }

  /** Whatever the tag held before, a merge leaves image indexes of artifact type Bundle with a named architecture only.
      The child is there once; any other entry is there as often as before when it is of that kind and of another
      architecture, and is dropped otherwise. Entries stand in ascending order of their architectures. */
  lemma MergedEntries(before: seq<Descriptor>, child: Descriptor, after: seq<Descriptor>)
    requires Merges(before, child, after) && child.mediaType == ImageIndex && child.artifactType == Bundle
    requires child.platform.Some? && child.platform.value.architecture != ""
    ensures forall d :: d in after ==> d.mediaType == ImageIndex && d.artifactType == Bundle && d.platform.Some?
                                       && d.platform.value.architecture != ""
    ensures forall d :: d != child ==>
              (d in after <==>
                && d in before && d.mediaType == ImageIndex && d.artifactType == Bundle && d.platform.Some?
                && d.platform.value.architecture != ""
                && d.platform.value.architecture != child.platform.value.architecture)
    ensures child in after
    ensures forall d :: d in after ==> multiset(after)[d] == if d == child then 1 else multiset(before)[d]
    ensures forall i, j :: 0 <= i < j < |after| && after[i].platform.Some? && after[j].platform.Some? ==>
              !Below(after[j].platform.value.architecture, after[i].platform.value.architecture)
  {
    MergedMembers(before, child, after);
    assert before[..|before|] == before;
    forall d | d in after ensures multiset(after)[d] == if d == child then 1 else multiset(before)[d] {
      PreservedCount(before, ArchitectureOf(child), |before|, d);
    }
    forall i, j | 0 <= i < j < |after| ensures !ByArchitecture(after[j], after[i]) {
    }
  }

  /** A push replaces or adds exactly the child's architecture. */
  lemma MergeUpdates(before: seq<Descriptor>, children: map<string, Descriptor>, child: Descriptor,
                     after: seq<Descriptor>)
    requires Represents(before, children) && IsBundleChild(child) && Merges(before, child, after)
    ensures Represents(after, children[ArchitectureOf(child) := child])
  {
    var arch := ArchitectureOf(child);
    RepresentsDistinct(before, children);
    MergedMembers(before, child, after);
    forall i, j | 0 <= i < j < |after| ensures ByArchitecture(after[i], after[j]) {
      assert after[i] in after && after[j] in after && after[i] != after[j];
      assert !ByArchitecture(after[j], after[i]);
      BelowConnected(ArchitectureOf(after[i]), ArchitectureOf(after[j]));
    }
  }

  /** The entries are determined by the map they represent. */
  lemma RepresentationUnique(xs: seq<Descriptor>, ys: seq<Descriptor>, children: map<string, Descriptor>)
    requires Represents(xs, children) && Represents(ys, children)
    ensures xs == ys
  {
    RepresentsDistinct(xs, children);
    assert forall d :: d in xs <==> d in ys;
    SortedUnique(ByArchitecture, xs, ys);
  }

  /** Entries that a sequence of successful pushes to a fresh tag can leave. */
  ghost predicate PushedInOrder(pushed: seq<Descriptor>, entries: seq<Descriptor>)
    decreases |pushed|
  {
    if pushed == [] then entries == []
    else
      var init, last := pushed[..|pushed| - 1], pushed[|pushed| - 1];
      exists before :: PushedInOrder(init, before) && Merges(before, last, entries)
  }

  /** The last child pushed for each architecture. */
  function Latest(pushed: seq<Descriptor>): map<string, Descriptor>
    decreases |pushed|
  {
    if pushed == [] then map[]
    else Latest(pushed[..|pushed| - 1])[ArchitectureOf(pushed[|pushed| - 1]) := pushed[|pushed| - 1]]
  }

  /** Whatever is pushed, the root is sorted strictly, one entry for each architecture, the last child pushed for it. */
  lemma {:induction false} RootIsLatest(pushed: seq<Descriptor>, entries: seq<Descriptor>)
    requires forall d :: d in pushed ==> IsBundleChild(d)
    requires PushedInOrder(pushed, entries)
    ensures Represents(entries, Latest(pushed))
    decreases |pushed|
  {
    if pushed != [] {
      var init, last := pushed[..|pushed| - 1], pushed[|pushed| - 1];
      var before :| PushedInOrder(init, before) && Merges(before, last, entries);
      RootIsLatest(init, before);
      assert last in pushed;
      MergeUpdates(before, Latest(init), last, entries);
    }
  }

  /** Two orders of pushing leave one root as soon as they agree on the last child for each architecture. */
  lemma PushOrderIrrelevant(p: seq<Descriptor>, q: seq<Descriptor>, x: seq<Descriptor>, y: seq<Descriptor>)
    requires forall d :: d in p || d in q ==> IsBundleChild(d)
    requires PushedInOrder(p, x) && PushedInOrder(q, y) && Latest(p) == Latest(q)
    ensures x == y
  {
    RootIsLatest(p, x);
    RootIsLatest(q, y);
    RepresentationUnique(x, y, Latest(p));
  }

  /** Pushes of different architectures commute. */
  lemma PushesCommute(pushed: seq<Descriptor>, a: Descriptor, b: Descriptor, x: seq<Descriptor>, y: seq<Descriptor>)
    requires forall d :: d in pushed + [a, b] ==> IsBundleChild(d)
    requires ArchitectureOf(a) != ArchitectureOf(b)
    requires PushedInOrder(pushed + [a, b], x) && PushedInOrder(pushed + [b, a], y)
    ensures x == y
  {
    LatestOfTwo(pushed, a, b);
    LatestOfTwo(pushed, b, a);
    UpdatesCommute(Latest(pushed), a, b);
    assert forall d :: d in pushed + [b, a] ==> d in pushed + [a, b];
    PushOrderIrrelevant(pushed + [a, b], pushed + [b, a], x, y);
  }

  lemma UpdatesCommute(children: map<string, Descriptor>, a: Descriptor, b: Descriptor)
    requires ArchitectureOf(a) != ArchitectureOf(b)
    ensures children[ArchitectureOf(a) := a][ArchitectureOf(b) := b]
         == children[ArchitectureOf(b) := b][ArchitectureOf(a) := a]
  {
  }

  lemma LatestOfTwo(pushed: seq<Descriptor>, a: Descriptor, b: Descriptor)
    ensures Latest(pushed + [a, b]) == Latest(pushed)[ArchitectureOf(a) := a][ArchitectureOf(b) := b]
  {
    var p, q := pushed + [a, b], pushed + [a];
    assert p[..|p| - 1] == q && q[..|q| - 1] == pushed;
  }

  /** Pushing again what the root already has leaves its entries, and so its bytes and digest, as they are. */
  lemma RepushChangesNothing(entries: seq<Descriptor>, children: map<string, Descriptor>, child: Descriptor,
                             after: seq<Descriptor>)
    requires Represents(entries, children) && IsBundleChild(child)
    requires ArchitectureOf(child) in children && children[ArchitectureOf(child)] == child
    requires Merges(entries, child, after)
    ensures after == entries
  {
    MergeUpdates(entries, children, child, after);
    assert children[ArchitectureOf(child) := child] == children;
    RepresentationUnique(entries, after, children);
  }

  // Reading back what was pushed.

  lemma {:induction false} EntryForMeaning(entries: seq<Descriptor>, arch: string, i: nat)
    requires i <= |entries|
    ensures match EntryFor(entries, arch, i)
            case Some(d) => d in entries[i..] && BundleEntry(d) && ArchitectureOf(d) == arch
            case None => forall d :: d in entries[i..] ==> !(BundleEntry(d) && ArchitectureOf(d) == arch)
    decreases |entries| - i
  {
    if i < |entries| {
      EntryForMeaning(entries, arch, i + 1);
      assert entries[i..] == [entries[i]] + entries[i + 1..];
    }
  }

  /** A bundle index stored at the tag itself is the bundle for every architecture that is asked for, whatever it lists:
      the architecture is looked up in a root index only. */
  lemma BundleIndexReadsAsItself(codec: Codec, content: ContentMap, tags: map<string, Descriptor>, reference: string,
                                 arch: string)
    requires reference in tags && FetchBytes(codec, content, tags[reference]).Ok?
    requires codec.unmarshal(content[tags[reference].digest]).Some?
    ensures codec.unmarshal(content[tags[reference].digest]).value.artifactType == Bundle ==>
              Child(codec, content, tags, reference, arch) == Ok((tags[reference], content[tags[reference].digest]))
    ensures codec.unmarshal(content[tags[reference].digest]).value.artifactType != Bundle
            && Child(codec, content, tags, reference, arch).Ok? ==>
              Child(codec, content, tags, reference, arch).value.0
              in codec.unmarshal(content[tags[reference].digest]).value.manifests
  {
    var index := codec.unmarshal(content[tags[reference].digest]).value;
    EntryForMeaning(index.manifests, arch, 0);
    assert index.manifests[0..] == index.manifests;
  }

  /** No entry before the k-th is a bundle for the architecture, and the k-th is. */
  ghost predicate FirstFor(entries: seq<Descriptor>, arch: string, k: nat) {
    && k < |entries| && entries[k].mediaType == ImageIndex && entries[k].artifactType == Bundle
    && entries[k].platform.Some? && entries[k].platform.value.architecture == arch
    && forall j :: 0 <= j < k ==>
         !(entries[j].mediaType == ImageIndex && entries[j].artifactType == Bundle && entries[j].platform.Some?
           && entries[j].platform.value.architecture == arch)
  }

  lemma {:induction false} FirstEntryFor(entries: seq<Descriptor>, arch: string, i: nat, k: nat)
    requires i <= k && FirstFor(entries, arch, k)
    ensures EntryFor(entries, arch, i) == Some(entries[k])
    decreases k - i
  {
    if i < k {
      FirstEntryFor(entries, arch, i + 1, k);
    }
  }

  /** In a root index an architecture reads as the first image index of artifact type Bundle listed for it, provided
      that this is stored as described and is a bundle index itself; later entries are never tried. */
  lemma RootReadsFirstEntry(codec: Codec, content: ContentMap, tags: map<string, Descriptor>, reference: string,
                            arch: string, index: Index, k: nat)
    requires reference in tags && FetchBytes(codec, content, tags[reference]).Ok?
    requires codec.unmarshal(content[tags[reference].digest]) == Some(index) && index.artifactType != Bundle
    requires FirstFor(index.manifests, arch, k)
    ensures var entry, r := index.manifests[k], Child(codec, content, tags, reference, arch);
            if entry.digest in content && |content[entry.digest]| == entry.size <= MAX_FETCH_BYTES
               && codec.hash(content[entry.digest]) == entry.digest
            then if codec.unmarshal(content[entry.digest]).Some?
                    && codec.unmarshal(content[entry.digest]).value.artifactType == Bundle
              then r == Ok((entry, content[entry.digest]))
              else r == Err(InvalidBundle)
            else r.Err? && (r.error.DescriptorTooLarge? || r.error.FetchContent?) && r.error.digest == entry.digest
  {
    FirstEntryFor(index.manifests, arch, 0, k);
  }

  /** The repository's tag names a root with these entries. */
  ghost predicate TagHolds(codec: Codec, content: ContentMap, tags: map<string, Descriptor>, tag: string,
                           entries: seq<Descriptor>)
  {
    var data := codec.marshal(Index(NoArtifact, entries));
    && tag in tags && tags[tag].digest == codec.hash(data) && tags[tag].size == |data|
    && codec.hash(data) in content && content[codec.hash(data)] == data
  }

  /** A root is read back by the next push exactly when it is small enough to be fetched. */
  lemma RootReadBack(codec: Codec, content: ContentMap, tags: map<string, Descriptor>, tag: string,
                     entries: seq<Descriptor>)
    requires Faithful(codec) && TagHolds(codec, content, tags, tag, entries)
    ensures RootEntries(codec, content, tags, tag) == Ok(entries) <==> tags[tag].size <= MAX_FETCH_BYTES
  {
    var data := codec.marshal(Index(NoArtifact, entries));
    assert codec.unmarshal(data) == Some(Index(NoArtifact, entries));
  }

  // Outgrowing the limit.

  /** Listing one more manifest takes at least one more byte. */
  ghost predicate Growing(codec: Codec) {
    forall t, ms, m :: |codec.marshal(Index(t, ms))| < |codec.marshal(Index(t, ms + [m]))|
  }

  function RootSize(codec: Codec, entries: seq<Descriptor>): nat {
    |codec.marshal(Index(NoArtifact, entries))|
  }

  lemma {:induction false} SizeBound(codec: Codec, entries: seq<Descriptor>)
    requires Growing(codec)
    ensures |entries| <= RootSize(codec, entries)
  {
    if entries != [] {
      var init, last := entries[..|entries| - 1], entries[|entries| - 1];
      SizeBound(codec, init);
      assert entries == init + [last];
    }
  }

  lemma {:induction false} AllPreserved(entries: seq<Descriptor>, arch: string, n: nat)
    requires n <= |entries| && forall d :: d in entries ==> PreservedEntry(d, arch)
    ensures Preserved(entries, arch, n) == entries[..n]
  {
    if n > 0 {
      AllPreserved(entries, arch, n - 1);
      assert entries[..n] == entries[..n - 1] + [entries[n - 1]];
    }
  }

  lemma MergedGrows(before: seq<Descriptor>, child: Descriptor, after: seq<Descriptor>)
    requires Merges(before, child, after) && forall d :: d in before ==> PreservedEntry(d, ArchitectureOf(child))
    ensures |after| == |before| + 1
  {
    AllPreserved(before, ArchitectureOf(child), |before|);
    assert |after| == |multiset(after)| == |multiset(before[..|before|] + [child])| == |before| + 1;
  }

  ghost predicate DistinctArchitectures(pushed: seq<Descriptor>) {
    forall i, j :: 0 <= i < j < |pushed| ==> ArchitectureOf(pushed[i]) != ArchitectureOf(pushed[j])
  }

  lemma {:induction false} LatestNames(pushed: seq<Descriptor>)
    ensures forall a :: a in Latest(pushed) ==> exists i :: 0 <= i < |pushed| && ArchitectureOf(pushed[i]) == a
  {
    if pushed != [] {
      var init, last := pushed[..|pushed| - 1], |pushed| - 1;
      LatestNames(init);
      forall a | a in Latest(pushed) ensures exists i :: 0 <= i < |pushed| && ArchitectureOf(pushed[i]) == a {
        if a in Latest(init) {
          var i :| 0 <= i < |init| && ArchitectureOf(init[i]) == a;
          assert ArchitectureOf(pushed[i]) == a;
        } else {
          assert ArchitectureOf(pushed[last]) == a;
        }
      }
    }
  }

  /** Pushes of distinct architectures all stay in the root. */
  lemma {:induction false} OneEntryEach(pushed: seq<Descriptor>, entries: seq<Descriptor>)
    requires (forall d :: d in pushed ==> IsBundleChild(d)) && DistinctArchitectures(pushed)
    requires PushedInOrder(pushed, entries)
    ensures |entries| == |pushed|
    decreases |pushed|
  {
    if pushed != [] {
      var init, last := pushed[..|pushed| - 1], pushed[|pushed| - 1];
      var before :| PushedInOrder(init, before) && Merges(before, last, entries);
      OneEntryEach(init, before);
      RootIsLatest(init, before);
      LatestNames(init);
      forall d | d in before ensures PreservedEntry(d, ArchitectureOf(last)) {
        var i :| 0 <= i < |init| && ArchitectureOf(init[i]) == ArchitectureOf(d);
        assert ArchitectureOf(pushed[i]) != ArchitectureOf(pushed[|pushed| - 1]);
      }
      MergedGrows(before, last, entries);
    }
  }

  lemma ArchitecturesOrdered(entries: seq<Descriptor>)
    ensures PartialOrderOn(ByArchitecture, Elements(entries))
  {
    forall a { BelowIrreflexive(ArchitectureOf(a)); }
    forall a, b, c | ByArchitecture(a, b) && ByArchitecture(b, c) {
      BelowTransitive(ArchitectureOf(a), ArchitectureOf(b), ArchitectureOf(c));
    }
  }

  /** Any children can be pushed one after the other. */
  lemma {:induction false} PushesExist(pushed: seq<Descriptor>) returns (entries: seq<Descriptor>)
    ensures PushedInOrder(pushed, entries)
    decreases |pushed|
  {
    if pushed == [] {
      entries := [];
    } else {
      var last := pushed[|pushed| - 1];
      var before := PushesExist(pushed[..|pushed| - 1]);
      var listed := Preserved(before, ArchitectureOf(last), |before|) + [last];
      entries := Sort(ByArchitecture, listed);
      ArchitecturesOrdered(listed);
      SortOrdered(ByArchitecture, listed);
      SortElements(ByArchitecture, listed);
      assert Merges(before, last, entries);
    }
  }

  ghost predicate Oversized(codec: Codec, pushed: seq<Descriptor>, j: nat)
    requires j <= |pushed|
  {
    exists entries :: PushedInOrder(pushed[..j], entries) && RootSize(codec, entries) > MAX_FETCH_BYTES
  }

  lemma OversizedPrefix(codec: Codec, pushed: seq<Descriptor>, n: nat, j: nat)
    requires j <= n <= |pushed|
    ensures Oversized(codec, pushed[..n], j) <==> Oversized(codec, pushed, j)
  {
    assert pushed[..n][..j] == pushed[..j];
  }

  /** How many of the pushes it takes until the root has outgrown the limit. */
  lemma {:induction false} FirstOversized(codec: Codec, pushed: seq<Descriptor>) returns (k: nat)
    requires pushed != [] && Oversized(codec, pushed, |pushed|)
    ensures 0 < k <= |pushed| && Oversized(codec, pushed, k)
    ensures forall j :: 0 < j < k ==> !Oversized(codec, pushed, j)
    decreases |pushed|
  {
    if n :| 0 < n < |pushed| && Oversized(codec, pushed, n) {
      OversizedPrefix(codec, pushed, n, n);
      k := FirstOversized(codec, pushed[..n]);
      forall j | 0 < j <= k ensures Oversized(codec, pushed[..n], j) <==> Oversized(codec, pushed, j) {
        OversizedPrefix(codec, pushed, n, j);
      }
    } else {
      k := |pushed|;
    }
  }

  /** Wherever a tag holds these entries, the next push reads them... */
  ghost predicate ReadBack(codec: Codec, entries: seq<Descriptor>) {
    forall content: ContentMap, tags: map<string, Descriptor>, tag: string ::
      TagHolds(codec, content, tags, tag, entries) ==> RootEntries(codec, content, tags, tag) == Ok(entries)
  }

  /** ...or finds their root too large to fetch. */
  ghost predicate NeverReadBack(codec: Codec, entries: seq<Descriptor>) {
    forall content: ContentMap, tags: map<string, Descriptor>, tag: string ::
      TagHolds(codec, content, tags, tag, entries) ==>
        RootEntries(codec, content, tags, tag) == Err(DescriptorTooLarge(tags[tag].digest))
  }

  lemma SizeDecides(codec: Codec, entries: seq<Descriptor>)
    requires Faithful(codec)
    ensures if RootSize(codec, entries) <= MAX_FETCH_BYTES then ReadBack(codec, entries)
            else NeverReadBack(codec, entries)
  {
    forall content: ContentMap, tags: map<string, Descriptor>, tag: string |
      TagHolds(codec, content, tags, tag, entries)
      ensures tags[tag].size == RootSize(codec, entries)
      ensures RootEntries(codec, content, tags, tag) == Ok(entries) <==> tags[tag].size <= MAX_FETCH_BYTES {
      RootReadBack(codec, content, tags, tag, entries);
    }
  }

  /** More pushes of distinct architectures than the limit has bytes outgrow it: there is a first push after which the
      root is not read back, although every root before it is, so that the next push fails. */
  lemma HistoryOutgrowsLimit(codec: Codec, pushed: seq<Descriptor>) returns (k: nat, entries: seq<Descriptor>)
    requires Faithful(codec) && Growing(codec)
    requires (forall d :: d in pushed ==> IsBundleChild(d)) && DistinctArchitectures(pushed)
    requires |pushed| > MAX_FETCH_BYTES
    ensures 0 < k <= |pushed| && PushedInOrder(pushed[..k], entries)
    ensures NeverReadBack(codec, entries)
    ensures forall j, es :: 0 < j < k && PushedInOrder(pushed[..j], es) ==> ReadBack(codec, es)
  {
    var all := PushesExist(pushed);
    OneEntryEach(pushed, all);
    SizeBound(codec, all);
    assert pushed[..|pushed|] == pushed;
    k := FirstOversized(codec, pushed);
    entries :| PushedInOrder(pushed[..k], entries) && RootSize(codec, entries) > MAX_FETCH_BYTES;
    SizeDecides(codec, entries);
    forall j, es | 0 < j < k && PushedInOrder(pushed[..j], es) ensures ReadBack(codec, es) {
      assert !Oversized(codec, pushed, j);
      SizeDecides(codec, es);
    }
  }

  function Repeat(c: char, n: nat): string {
    seq(n, _ => c)
  }

  /** There are that many architectures, and children for them. */
  lemma ManyArchitectures(child: Descriptor, n: nat) returns (pushed: seq<Descriptor>)
    requires IsBundleChild(child)
    ensures |pushed| == n && (forall d :: d in pushed ==> IsBundleChild(d)) && DistinctArchitectures(pushed)
  {
    pushed := seq(n, i requires 0 <= i < n => child.(platform := Some(Platform(Repeat('a', i + 1), ""))));
    forall i, j | 0 <= i < j < n ensures ArchitectureOf(pushed[i]) != ArchitectureOf(pushed[j]) {
      assert |ArchitectureOf(pushed[i])| == i + 1 && |ArchitectureOf(pushed[j])| == j + 1;
    }
    forall d | d in pushed ensures IsBundleChild(d) {
      var i :| 0 <= i < n && pushed[i] == d;
      assert |ArchitectureOf(d)| == i + 1;
    }
  }

  /** So a successful push over what earlier pushes left is one more push of the history. */
  lemma PushExtendsHistory(codec: Codec, content: ContentMap, tags: map<string, Descriptor>, tag: string,
                           pushed: seq<Descriptor>, entries: seq<Descriptor>, child: Descriptor, after: seq<Descriptor>)
    requires Faithful(codec) && PushedInOrder(pushed, entries)
    requires if pushed == [] then tag !in tags else TagHolds(codec, content, tags, tag, entries)
    requires RootEntries(codec, content, tags, tag).Ok?
    requires Merges(RootEntries(codec, content, tags, tag).value, child, after)
    ensures PushedInOrder(pushed + [child], after)
  {
    if pushed != [] {
      RootReadBack(codec, content, tags, tag, entries);
      var data := codec.marshal(Index(NoArtifact, entries));
      assert codec.unmarshal(data) == Some(Index(NoArtifact, entries));
    }
    var longer := pushed + [child];
    assert longer[..|longer| - 1] == pushed && longer[|longer| - 1] == child;
  }

  /** A stored bundle index that a descriptor describes truly. */
  ghost predicate StoredBundle(codec: Codec, content: ContentMap, d: Descriptor) {
    && d.digest in content && codec.hash(content[d.digest]) == d.digest && |content[d.digest]| == d.size
    && codec.unmarshal(content[d.digest]).Some? && codec.unmarshal(content[d.digest]).value.artifactType == Bundle
  }

  /** Whatever was at the tag before, the child just pushed is what its architecture resolves to, exactly when the new
      root and the child's index are small enough to be fetched. */
  lemma PushedChildResolves(codec: Codec, content: ContentMap, tags: map<string, Descriptor>, tag: string,
                            before: seq<Descriptor>, child: Descriptor, after: seq<Descriptor>)
    requires Faithful(codec) && IsBundleChild(child) && Merges(before, child, after)
    requires TagHolds(codec, content, tags, tag, after) && StoredBundle(codec, content, child)
    ensures Child(codec, content, tags, tag, ArchitectureOf(child)) == Ok((child, content[child.digest]))
       <==> tags[tag].size <= MAX_FETCH_BYTES && child.size <= MAX_FETCH_BYTES
  {
    var data := codec.marshal(Index(NoArtifact, after));
    assert codec.unmarshal(data) == Some(Index(NoArtifact, after));
    MergedMembers(before, child, after);
    EntryForMeaning(after, ArchitectureOf(child), 0);
    assert after[0..] == after;
    assert EntryFor(after, ArchitectureOf(child), 0) == Some(child);
  }

  /** A fresh tag after any successful pushes reads as the map from architecture to last pushed child. */
  lemma TagReadsAsLatest(codec: Codec, content: ContentMap, tags: map<string, Descriptor>, tag: string,
                         pushed: seq<Descriptor>, entries: seq<Descriptor>, arch: string)
    requires Faithful(codec) && pushed != [] && (forall d :: d in pushed ==> IsBundleChild(d))
    requires PushedInOrder(pushed, entries) && TagHolds(codec, content, tags, tag, entries)
    requires tags[tag].size <= MAX_FETCH_BYTES
    ensures arch in Latest(pushed) ==>
              Child(codec, content, tags, tag, arch) == ChildContent(codec, content, Latest(pushed)[arch])
    ensures arch !in Latest(pushed) ==>
              exists available :: Child(codec, content, tags, tag, arch) == Err(ArchitectureUnavailable(available))
                && (forall a :: a in available <==> a in Latest(pushed))
  {
    var data := codec.marshal(Index(NoArtifact, entries));
    assert codec.unmarshal(data) == Some(Index(NoArtifact, entries));
    RootIsLatest(pushed, entries);
    EntryForMeaning(entries, arch, 0);
    assert entries[0..] == entries;
    if arch !in Latest(pushed) {
      var available := Architectures(entries, |entries|);
      ArchitecturesMeaning(entries, |entries|);
      assert entries[..|entries|] == entries;
      var last := pushed[|pushed| - 1];
      assert ArchitectureOf(last) in Latest(pushed);
      assert ArchitectureOf(last) in available;
      assert Child(codec, content, tags, tag, arch) == Err(ArchitectureUnavailable(available));
    }
  }

  ghost predicate HasArchitecture(entries: seq<Descriptor>, a: string) {
    exists d :: d in entries && BundleEntry(d) && ArchitectureOf(d) == a
  }

  lemma {:induction false} ArchitecturesMeaning(entries: seq<Descriptor>, n: nat)
    requires n <= |entries|
    ensures forall a :: a in Architectures(entries, n) <==> HasArchitecture(entries[..n], a)
  {
    if n > 0 {
      ArchitecturesMeaning(entries, n - 1);
      assert entries[..n] == entries[..n - 1] + [entries[n - 1]];
    }
  }

  /** What the tag named, as an index. */
  function TaggedIndex(codec: Codec, content: ContentMap, tags: map<string, Descriptor>, tag: string): Option<Index> {
    if tag in tags && tags[tag].digest in content then codec.unmarshal(content[tags[tag].digest]) else None
  }

  /** The tag names an untyped index that lists the child, and besides it exactly the old root's image indexes of
      artifact type Bundle with another, named architecture; nothing is kept of an artifact that was no root. */
  ghost predicate RootPublished(codec: Codec, oldContent: ContentMap, oldTags: map<string, Descriptor>,
                                content: ContentMap, tags: map<string, Descriptor>, tag: string, child: Descriptor)
  {
    var before, after := TaggedIndex(codec, oldContent, oldTags, tag), TaggedIndex(codec, content, tags, tag);
    && after.Some? && after.value.artifactType == NoArtifact
    && child in after.value.manifests
    && (forall d :: d in after.value.manifests ==>
          && d.mediaType == ImageIndex && d.artifactType == Bundle
          && d.platform.Some? && d.platform.value.architecture != "")
    && (forall d :: d != child ==>
          (d in after.value.manifests <==>
            && before.Some? && before.value.artifactType == NoArtifact && d in before.value.manifests
            && d.mediaType == ImageIndex && d.artifactType == Bundle && d.platform.Some?
            && d.platform.value.architecture != ""
            && (child.platform.Some? ==> d.platform.value.architecture != child.platform.value.architecture)))
  }

  lemma RootEntriesMeaning(codec: Codec, content: ContentMap, tags: map<string, Descriptor>, tag: string)
    requires RootEntries(codec, content, tags, tag).Ok?
    ensures var index := TaggedIndex(codec, content, tags, tag);
            && (tag in tags ==> index.Some?)
            && RootEntries(codec, content, tags, tag).value ==
               if index.Some? && index.value.artifactType == NoArtifact then index.value.manifests else []
  {
  }

  lemma RootIsPublished(codec: Codec, oldContent: ContentMap, oldTags: map<string, Descriptor>, content: ContentMap,
                        tags: map<string, Descriptor>, tag: string, child: Descriptor, after: seq<Descriptor>)
    requires Faithful(codec) && child.mediaType == ImageIndex && child.artifactType == Bundle
    requires child.platform.Some? && child.platform.value.architecture != ""
    requires RootEntries(codec, oldContent, oldTags, tag).Ok?
    requires Merges(RootEntries(codec, oldContent, oldTags, tag).value, child, after)
    requires TagHolds(codec, content, tags, tag, after)
    ensures RootPublished(codec, oldContent, oldTags, content, tags, tag, child)
  {
    var data := codec.marshal(Index(NoArtifact, after));
    assert codec.unmarshal(data) == Some(Index(NoArtifact, after));
    RootEntriesMeaning(codec, oldContent, oldTags, tag);
    MergedEntries(RootEntries(codec, oldContent, oldTags, tag).value, child, after);
  }

  /** Only the root the tag names may be new: no other tag and no other content has changed. */
  ghost predicate OnlyRootWritten(oldContent: ContentMap, oldTags: map<string, Descriptor>,
                                  content: ContentMap, tags: map<string, Descriptor>, tag: string)
  {
    && tag in tags && tags == oldTags[tag := tags[tag]]
    && tags[tag].digest in content && content == oldContent[tags[tag].digest := content[tags[tag].digest]]
  }

  /** Publishes the root index of a child that is already in the repository. */
  method PublishBundleRootIndex(target: Repository, tag: string, child: Descriptor)
    returns (error: Option<TransferError>)
    requires Faithful(target.codec) && child.platform.Some?
    modifies target
    ensures error.Some? ==> target.tags == old(target.tags)
    ensures error.Some? ==>
      || RootEntries(target.codec, old(target.content), old(target.tags), tag) == Err(error.value)
      || (error.value == CutOff && target.writesLeft == 0)
    ensures error.None? ==>
      var before := RootEntries(target.codec, old(target.content), old(target.tags), tag);
      && before.Ok?
      && OnlyRootWritten(old(target.content), old(target.tags), target.content, target.tags, tag)
      && exists after ::
           Merges(before.value, child, after) && TagHolds(target.codec, target.content, target.tags, tag, after)
    ensures error.None? && child.mediaType == ImageIndex && child.artifactType == Bundle
            && child.platform.value.architecture != "" ==>
      RootPublished(target.codec, old(target.content), old(target.tags), target.content, target.tags, tag, child)
    ensures target.signatures == old(target.signatures)
  {
    var root := MergeRootIndex(target, tag, child);
    if root.Err? {
      return Some(root.error);
    }
    if !(root.value.current.Some? && root.value.current.value.digest == root.value.desc.digest) {
      var ok := target.PushReferenceBytes(root.value.desc, root.value.data, tag);
      if !ok {
        return Some(CutOff);
      }
    }
    assert TagHolds(target.codec, target.content, target.tags, tag, root.value.entries);
    if child.mediaType == ImageIndex && child.artifactType == Bundle && child.platform.value.architecture != "" {
      RootIsPublished(target.codec, old(target.content), old(target.tags), target.content, target.tags, tag, child,
                      root.value.entries);
    }
    return None;
  }
}
