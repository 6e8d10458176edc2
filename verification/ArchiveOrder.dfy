/** The order in which pkg/legacy/bundler/localbundle.go writes a bundle archive, and why one prefetch pass suffices. */
module ArchiveOrder {
  import opened Wrappers
  import opened Sequences
  import opened Ordering
  import opened Oci
  import opened Prefetch

  /** What fetching one package yields: the layers the fetcher added to the root manifest (the package manifest is the
      last of them) and the descriptors of everything it fetched. */
  datatype Fetched = Fetched(appended: seq<Digest>, layers: seq<Layer>)

  const BLOBS_DIR := "blobs/sha256/"

  /** The name as it stands in the archive. */
  function Text(n: ArchiveName): string {
    match n
    case Blob(d) => BLOBS_DIR + d
    case Plain(s) => s
  }

  /** The metadata blobs of a package, in order of appearance. */
  function MetadataNames(layers: seq<Layer>): seq<ArchiveName> {
    if layers == [] then []
    else
      var init, last := MetadataNames(layers[..|layers| - 1]), layers[|layers| - 1];
      if last.IsMetadata() then init + [Blob(last.digest)] else init
  }

  lemma {:induction false} MetadataNamesMembers(layers: seq<Layer>)
    ensures forall d :: Blob(d) in MetadataNames(layers) <==> exists l :: l in layers && l.IsMetadata() && l.digest == d
    ensures forall n :: n in MetadataNames(layers) ==> n.Blob?
  {
    if layers != [] {
      var init, last := layers[..|layers| - 1], layers[|layers| - 1];
      MetadataNamesMembers(init);
      assert layers == init + [last];
      forall d ensures Blob(d) in MetadataNames(layers)
         <==> exists l :: l in layers && l.IsMetadata() && l.digest == d {
        if Blob(d) in MetadataNames(layers) {
          if Blob(d) in MetadataNames(init) {
            var l :| l in init && l.IsMetadata() && l.digest == d;
            assert l in layers;
          } else {
            assert last in layers;
          }
        }
        if l :| l in layers && l.IsMetadata() && l.digest == d {
          assert l in init || l == last;
        }
      }
    }
  }

  /** A package's part of the priority list: its manifest, then its metadata; nothing when the fetcher did not append
      exactly one layer. */
  function PackagePriority(f: Fetched): seq<ArchiveName> {
    if |f.appended| == 1 then [Blob(f.appended[0])] + MetadataNames(f.layers) else []
  }

  /** A package is hinted exactly when the fetcher appended one layer: that layer's manifest first, and behind it
      exactly the blobs titled zarf.yaml, as either signature or as checksums. A package that appended none, as when its
      manifest was there already, or several is left out with all its metadata. */
  lemma HintedPackage(f: Fetched)
    ensures PackagePriority(f) == [] <==> |f.appended| != 1
    ensures |f.appended| == 1 ==>
              && PackagePriority(f)[0] == Blob(f.appended[0])
              && forall d :: Blob(d) in PackagePriority(f)[1..] <==>
                   exists l :: l in f.layers && l.digest == d
                               && (l.title == ZarfYAML || l.title == LegacySignature || l.title == KeylessBundle
                                   || l.title == Checksums)
  {
    MetadataNamesMembers(f.layers);
    if |f.appended| == 1 {
      assert PackagePriority(f)[1..] == MetadataNames(f.layers);
      forall d ensures Blob(d) in MetadataNames(f.layers) <==>
          exists l :: l in f.layers && l.digest == d
                      && (l.title == ZarfYAML || l.title == LegacySignature || l.title == KeylessBundle
                          || l.title == Checksums) {
        if l :| l in f.layers && l.IsMetadata() && l.digest == d {
          assert l.title == ZarfYAML || l.title == LegacySignature || l.title == KeylessBundle || l.title == Checksums;
        }
        if l :| l in f.layers && l.digest == d && !l.title.OtherTitle? {
          assert l.IsMetadata();
        }
      }
    }
  }

  /** The parts of the first k packages. */
  function PackagesPriority(fetched: seq<Fetched>, k: nat): seq<ArchiveName>
    requires k <= |fetched|
  {
    if k == 0 then [] else PackagesPriority(fetched, k - 1) + PackagePriority(fetched[k - 1])
  }

  /** The bundle's own small files come first, the packages follow, the bundle signature comes last. */
  function PriorityNames(root: Digest, config: Digest, bundleYAML: Digest, fetched: seq<Fetched>,
                         signature: Option<Digest>): seq<ArchiveName> {
    [Plain("oci-layout"), Plain("index.json"), Blob(root), Blob(config), Blob(bundleYAML)]
    + PackagesPriority(fetched, |fetched|)
    + if signature.Some? then [Blob(signature.value)] else []
  }

  method CreatePriorityNames(root: Digest, config: Digest, bundleYAML: Digest, fetched: seq<Fetched>,
                             signature: Option<Digest>) returns (names: seq<ArchiveName>)
    ensures names == PriorityNames(root, config, bundleYAML, fetched, signature)
  {
    var rootLayers: seq<Digest> := [];
    var perPkgPriority: seq<ArchiveName> := [];
    for i := 0 to |fetched|
      invariant perPkgPriority == PackagesPriority(fetched, i)
    {
      var layersBefore := |rootLayers|;
      rootLayers := rootLayers + fetched[i].appended;
      var descs := fetched[i].layers;
      var pkgMetaBlobs: seq<ArchiveName> := [];
      for j := 0 to |descs|
        invariant pkgMetaBlobs == MetadataNames(descs[..j])
      {
        assert descs[..j + 1][..j] == descs[..j];
        if descs[j].IsMetadata() {
          pkgMetaBlobs := pkgMetaBlobs + [Blob(descs[j].digest)];
        }
      }
      assert descs[..|descs|] == descs;
      if |rootLayers| - layersBefore == 1 {
        var pkgManifest := rootLayers[|rootLayers| - 1];
        perPkgPriority := perPkgPriority + [Blob(pkgManifest)];
        perPkgPriority := perPkgPriority + pkgMetaBlobs;
        assert perPkgPriority == PackagesPriority(fetched, i) + PackagePriority(fetched[i]);
      }
    }
    names := [Plain("oci-layout"), Plain("index.json"), Blob(root), Blob(config), Blob(bundleYAML)];
    names := names + perPkgPriority;
    if signature.Some? {
      names := names + [Blob(signature.value)];
    }
  }

  // Ranks and the comparator.

  /** Every name's rank is the place of its last occurrence among the first k names. */
  ghost predicate Ranks(names: seq<ArchiveName>, k: nat, rank: map<ArchiveName, nat>)
    requires k <= |names|
  {
    && (forall i :: 0 <= i < k ==> names[i] in rank && i <= rank[names[i]])
    && (forall n :: n in rank ==> rank[n] < k && names[rank[n]] == n)
  }

  method PriorityRanks(names: seq<ArchiveName>) returns (rank: map<ArchiveName, nat>)
    ensures Ranks(names, |names|, rank)
  {
    rank := map[];
    for i := 0 to |names|
      invariant Ranks(names, i, rank)
    {
      rank := rank[names[i] := i];
    }
  }

  /** The layout file and the index come first of all in a created bundle, whatever the packages are. */
  lemma LayoutAndIndexFirst(root: Digest, config: Digest, bundleYAML: Digest, fetched: seq<Fetched>,
                            signature: Option<Digest>, rank: map<ArchiveName, nat>, n: ArchiveName)
    requires var names := PriorityNames(root, config, bundleYAML, fetched, signature); Ranks(names, |names|, rank)
    ensures Plain("oci-layout") in rank && rank[Plain("oci-layout")] == 0
    ensures Plain("index.json") in rank && rank[Plain("index.json")] == 1
    ensures n in rank && rank[n] > 1 ==> n.Blob?
  {
    var names := PriorityNames(root, config, bundleYAML, fetched, signature);
    PackagePartsAreBlobs(fetched, |fetched|);
    assert "oci-layout"[0] != "index.json"[0];
    assert names[0] == Plain("oci-layout") && names[1] == Plain("index.json");
    forall i | 2 <= i < |names| ensures names[i].Blob? {
      var packages := PackagesPriority(fetched, |fetched|);
      if 5 <= i < 5 + |packages| {
        assert names[i] == packages[i - 5];
      }
    }
  }

  lemma {:induction false} PackagePartsAreBlobs(fetched: seq<Fetched>, k: nat)
    requires k <= |fetched|
    ensures forall n :: n in PackagesPriority(fetched, k) ==> n.Blob?
  {
    if k > 0 {
      PackagePartsAreBlobs(fetched, k - 1);
      MetadataNamesMembers(fetched[k - 1].layers);
    }
  }

  /** Ranked entries first, by rank; the others alphabetically. */
  predicate Before(rank: map<ArchiveName, nat>, a: Entry, b: Entry) {
    if a.name in rank && b.name in rank then rank[a.name] < rank[b.name]
    else if a.name in rank then true
    else if b.name in rank then false
    else Below(Text(a.name), Text(b.name))
  }

  /** Where a file stands that the list does not name: behind every named one, and otherwise by its path. */
  lemma UnlistedByPath(rank: map<ArchiveName, nat>, a: Entry, b: Entry)
    requires a.name !in rank
    ensures b.name in rank ==> Before(rank, b, a) && !Before(rank, a, b)
    ensures b.name !in rank ==>
              (Before(rank, a, b) <==>
                Below(if a.name.Blob? then "blobs/sha256/" + a.name.digest else a.name.name,
                      if b.name.Blob? then "blobs/sha256/" + b.name.digest else b.name.name))
  {
  }

  ghost predicate DistinctTexts(files: seq<Entry>) {
    forall i, j :: 0 <= i < j < |files| ==> Text(files[i].name) != Text(files[j].name)
  }

  function Comparator(rank: map<ArchiveName, nat>): (Entry, Entry) -> bool {
    (a: Entry, b: Entry) => Before(rank, a, b)
  }

  lemma BeforeTransitive(rank: map<ArchiveName, nat>, a: Entry, b: Entry, c: Entry)
    requires Before(rank, a, b) && Before(rank, b, c)
    ensures Before(rank, a, c)
  {
    if a.name !in rank && b.name !in rank && c.name !in rank {
      BelowTransitive(Text(a.name), Text(b.name), Text(c.name));
    }
  }

  lemma BeforeConnected(names: seq<ArchiveName>, rank: map<ArchiveName, nat>, a: Entry, b: Entry)
    requires Ranks(names, |names|, rank) && Text(a.name) != Text(b.name)
    ensures Before(rank, a, b) || Before(rank, b, a)
  {
    if a.name !in rank && b.name !in rank {
      BelowConnected(Text(a.name), Text(b.name));
    }
  }

  /** The comparator is a strict total order on files of different names. */
  lemma ComparatorIsTotalOrder(names: seq<ArchiveName>, rank: map<ArchiveName, nat>, files: seq<Entry>)
    requires Ranks(names, |names|, rank) && DistinctTexts(files)
    ensures StrictOrderOn(Comparator(rank), Elements(files)) && NoDuplicates(files)
  {
    var less := Comparator(rank);
    forall a | a in Elements(files) ensures !less(a, a) {
      BelowIrreflexive(Text(a.name));
    }
    forall a, b, c | less(a, b) && less(b, c) ensures less(a, c) {
      BeforeTransitive(rank, a, b, c);
    }
    forall a, b | a in Elements(files) && b in Elements(files) && a != b ensures less(a, b) || less(b, a) {
      var i :| 0 <= i < |files| && files[i] == a;
      var j :| 0 <= j < |files| && files[j] == b;
      assert Text(files[i].name) != Text(files[j].name);
      BeforeConnected(names, rank, a, b);
    }
    forall i, j | 0 <= i < j < |files| ensures files[i] != files[j] {
      assert Text(files[i].name) != Text(files[j].name);
    }
  }

  /** The archive holds exactly the given files, ordered by the comparator of the priority names. */
  ghost predicate Written(names: seq<ArchiveName>, files: seq<Entry>, archive: Archive) {
    && multiset(archive) == multiset(files)
    && exists rank :: Ranks(names, |names|, rank) && StrictlySorted(Comparator(rank), archive)
  }

  method WriteTarball(files: seq<Entry>, names: seq<ArchiveName>) returns (archive: Archive)
    requires DistinctTexts(files)
    ensures Written(names, files, archive)
  {
    var rank := PriorityRanks(names);
    ComparatorIsTotalOrder(names, rank, files);
    archive := Sort(Comparator(rank), files);
    SortSorted(Comparator(rank), files);
    SortElements(Comparator(rank), files);
  }

  /** The ranks are determined by the names, so the archive is determined by names and files. */
  lemma RanksUnique(names: seq<ArchiveName>, a: map<ArchiveName, nat>, b: map<ArchiveName, nat>)
    requires Ranks(names, |names|, a) && Ranks(names, |names|, b)
    ensures a == b
  {
    forall n ensures n in a <==> n in b {
      if n in a { assert names[a[n]] == n; }
      if n in b { assert names[b[n]] == n; }
    }
    forall n | n in a ensures a[n] == b[n] {
      assert names[a[n]] == n && names[b[n]] == n;
    }
  }

  // Manifests before metadata.

  /** Every package is hinted with one manifest, the manifests are distinct, and no manifest is also a metadata blob or
      the bundle signature, which would give it a later rank. */
  ghost predicate WellHinted(fetched: seq<Fetched>, signature: Option<Digest>) {
    && (forall i :: 0 <= i < |fetched| ==> |fetched[i].appended| == 1)
    && (forall i, j :: 0 <= i < j < |fetched| ==> fetched[i].appended != fetched[j].appended)
    && (forall i, j :: 0 <= i < |fetched| && 0 <= j < |fetched| ==>
          |fetched[i].appended| == 1 && Blob(fetched[i].appended[0]) !in MetadataNames(fetched[j].layers))
    && (forall i :: 0 <= i < |fetched| && signature.Some? ==> fetched[i].appended != [signature.value])
  }

  /** Package i is hinted with a manifest that no other package is hinted with, and that is neither metadata of a hinted
      package nor the bundle signature. */
  ghost predicate ManifestOnce(fetched: seq<Fetched>, signature: Option<Digest>, i: nat)
    requires i < |fetched|
  {
    && |fetched[i].appended| == 1
    && (forall j :: 0 <= j < |fetched| && j != i ==> Blob(fetched[i].appended[0]) !in PackagePriority(fetched[j]))
    && Blob(fetched[i].appended[0]) !in MetadataNames(fetched[i].layers)
    && signature != Some(fetched[i].appended[0])
  }

  lemma HintedOnce(fetched: seq<Fetched>, signature: Option<Digest>, i: nat)
    requires WellHinted(fetched, signature) && i < |fetched|
    ensures ManifestOnce(fetched, signature, i)
  {
    forall j | 0 <= j < |fetched| && j != i ensures Blob(fetched[i].appended[0]) !in PackagePriority(fetched[j]) {
      ManifestsApart(fetched, signature, i, j);
    }
    assert fetched[i].appended == [fetched[i].appended[0]];
    assert Blob(fetched[i].appended[0]) !in MetadataNames(fetched[i].layers);
  }

  /** x stands somewhere behind the last m. */
  ghost predicate BehindLast(names: seq<ArchiveName>, m: ArchiveName, x: ArchiveName) {
    exists q :: 0 <= q < |names| && names[q] == x && forall t :: q <= t < |names| ==> names[t] != m
  }

  lemma BehindLastAppend(names: seq<ArchiveName>, more: seq<ArchiveName>, m: ArchiveName, x: ArchiveName)
    requires BehindLast(names, m, x) && m !in more
    ensures BehindLast(names + more, m, x)
  {
    var q :| 0 <= q < |names| && names[q] == x && forall t :: q <= t < |names| ==> names[t] != m;
    var all := names + more;
    assert all[q] == x;
    forall t | q <= t < |all| ensures all[t] != m {
      if t >= |names| {
        assert all[t] == more[t - |names|];
      }
    }
  }

  lemma BehindLastPrepend(before: seq<ArchiveName>, names: seq<ArchiveName>, m: ArchiveName, x: ArchiveName)
    requires BehindLast(names, m, x)
    ensures BehindLast(before + names, m, x)
  {
    var q :| 0 <= q < |names| && names[q] == x && forall t :: q <= t < |names| ==> names[t] != m;
    var all, p := before + names, |before| + q;
    assert all[p] == x;
    forall t | p <= t < |all| ensures all[t] != m {
      assert all[t] == names[t - |before|];
    }
  }

  lemma InOwnPart(f: Fetched, x: ArchiveName)
    requires |f.appended| == 1 && x in MetadataNames(f.layers) && Blob(f.appended[0]) !in MetadataNames(f.layers)
    ensures BehindLast(PackagePriority(f), Blob(f.appended[0]), x)
  {
    var names, part := MetadataNames(f.layers), PackagePriority(f);
    var q :| 0 <= q < |names| && names[q] == x;
    assert part[q + 1] == x;
    forall t | q + 1 <= t < |part| ensures part[t] != Blob(f.appended[0]) {
      assert part[t] == names[t - 1];
    }
  }

  lemma ManifestsApart(fetched: seq<Fetched>, signature: Option<Digest>, i: nat, j: nat)
    requires WellHinted(fetched, signature) && i < |fetched| && j < |fetched| && i != j
    ensures |fetched[i].appended| == 1 && Blob(fetched[i].appended[0]) !in PackagePriority(fetched[j])
  {
    assert fetched[i].appended == [fetched[i].appended[0]] && fetched[j].appended == [fetched[j].appended[0]];
    assert fetched[i].appended != fetched[j].appended;
  }

  lemma {:induction false} BehindAmongPackages(fetched: seq<Fetched>, signature: Option<Digest>, i: nat, k: nat,
                                               x: ArchiveName)
    requires i < k <= |fetched| && ManifestOnce(fetched, signature, i)
    requires x in MetadataNames(fetched[i].layers)
    ensures BehindLast(PackagesPriority(fetched, k), Blob(fetched[i].appended[0]), x)
    decreases k
  {
    var m := Blob(fetched[i].appended[0]);
    if i == k - 1 {
      InOwnPart(fetched[i], x);
      BehindLastPrepend(PackagesPriority(fetched, i), PackagePriority(fetched[i]), m, x);
    } else {
      BehindAmongPackages(fetched, signature, i, k - 1, x);
      BehindLastAppend(PackagesPriority(fetched, k - 1), PackagePriority(fetched[k - 1]), m, x);
    }
  }

  /** A manifest outranks every metadata blob of its package, even one that other packages list again later. */
  lemma ManifestRanksFirst(root: Digest, config: Digest, bundleYAML: Digest, fetched: seq<Fetched>,
                           signature: Option<Digest>, rank: map<ArchiveName, nat>, i: nat, x: Digest)
    requires i < |fetched| && ManifestOnce(fetched, signature, i) && Blob(x) in MetadataNames(fetched[i].layers)
    requires var names := PriorityNames(root, config, bundleYAML, fetched, signature); Ranks(names, |names|, rank)
    ensures Blob(fetched[i].appended[0]) in rank && Blob(x) in rank
    ensures rank[Blob(fetched[i].appended[0])] < rank[Blob(x)]
  {
    var m, names := Blob(fetched[i].appended[0]), PriorityNames(root, config, bundleYAML, fetched, signature);
    BehindInPriorityNames(root, config, bundleYAML, fetched, signature, i, Blob(x));
    BehindRanksLater(names, rank, m, Blob(x));
  }

  /** What stands behind the last m, where m stands at all, has a later rank. */
  lemma BehindRanksLater(names: seq<ArchiveName>, rank: map<ArchiveName, nat>, m: ArchiveName, x: ArchiveName)
    requires Ranks(names, |names|, rank) && BehindLast(names, m, x) && m in names
    ensures m in rank && x in rank && rank[m] < rank[x]
  {
    var p :| 0 <= p < |names| && names[p] == m;
    var q :| 0 <= q < |names| && names[q] == x && forall t :: q <= t < |names| ==> names[t] != m;
    assert names[rank[m]] == m;
  }

  lemma BehindInPriorityNames(root: Digest, config: Digest, bundleYAML: Digest, fetched: seq<Fetched>,
                              signature: Option<Digest>, i: nat, x: ArchiveName)
    requires i < |fetched| && ManifestOnce(fetched, signature, i) && x in MetadataNames(fetched[i].layers)
    ensures var m, names := Blob(fetched[i].appended[0]), PriorityNames(root, config, bundleYAML, fetched, signature);
            m in names && BehindLast(names, m, x)
  {
    var m := Blob(fetched[i].appended[0]);
    var front := [Plain("oci-layout"), Plain("index.json"), Blob(root), Blob(config), Blob(bundleYAML)];
    var middle := PackagesPriority(fetched, |fetched|);
    var back := if signature.Some? then [Blob(signature.value)] else [];
    BehindAmongPackages(fetched, signature, i, |fetched|, x);
    BehindLastPrepend(front, middle, m, x);
    BehindLastAppend(front + middle, back, m, x);
    ManifestListed(fetched, i, |fetched|);
  }

  lemma OwnManifestListed(f: Fetched)
    requires |f.appended| == 1
    ensures Blob(f.appended[0]) in PackagePriority(f)
  {
    assert PackagePriority(f)[0] == Blob(f.appended[0]);
  }

  lemma PartListed(a: seq<ArchiveName>, b: seq<ArchiveName>, x: ArchiveName)
    ensures x in a + b <==> x in a || x in b
  {
  }

  lemma {:induction false} ManifestListed(fetched: seq<Fetched>, i: nat, k: nat)
    requires i < k <= |fetched| && |fetched[i].appended| == 1
    ensures Blob(fetched[i].appended[0]) in PackagesPriority(fetched, k)
  {
    PartListed(PackagesPriority(fetched, k - 1), PackagePriority(fetched[k - 1]), Blob(fetched[i].appended[0]));
    if i == k - 1 {
      OwnManifestListed(fetched[i]);
    } else {
      ManifestListed(fetched, i, k - 1);
    }
  }

  // One pass suffices.

  /** How many entries stand in front: exactly those with a rank. */
  lemma {:induction false} PriorityPrefix(rank: map<ArchiveName, nat>, archive: Archive, k: nat) returns (length: nat)
    requires StrictlySorted(Comparator(rank), archive) && k <= |archive|
    ensures length <= k && forall i :: 0 <= i < k ==> (i < length <==> archive[i].name in rank)
  {
    if k == 0 {
      length := 0;
    } else {
      length := PriorityPrefix(rank, archive, k - 1);
      if archive[k - 1].name in rank {
        forall i | 0 <= i < k - 1 ensures archive[i].name in rank {
          assert Comparator(rank)(archive[i], archive[k - 1]);
        }
        if k > 1 {
          assert archive[k - 2].name in rank;
        }
        length := k;
      }
    }
  }

  /** The packages that prefetch looks for are the fetched ones, and their manifests name only titled blobs that were
      listed for them. */
  ghost predicate DescribesPackages(r: Reader, fetched: seq<Fetched>, packages: seq<Package>, blobs: map<Digest, Bytes>)
  {
    && |packages| == |fetched|
    && forall i :: 0 <= i < |packages| ==> DescribesPackage(r, fetched[i], packages[i].manifestDigest, blobs)
  }

  ghost predicate DescribesPackage(r: Reader, f: Fetched, d: Digest, blobs: map<Digest, Bytes>) {
    && f.appended == [d]
    && (d in blobs && r.parse(blobs[d]).Some? ==>
          forall x :: x in MetadataDigests(r.parse(blobs[d]).value) ==> Blob(x) in MetadataNames(f.layers))
  }

  /** For an archive written with the priority list of create, the prefetch finishes in its first pass without reading
      past the files of the list, whatever stands behind them. */
  lemma WrittenArchiveNeedsOnePass(r: Reader, packages: seq<Package>, root: Digest, config: Digest, bundleYAML: Digest,
                                   fetched: seq<Fetched>, signature: Option<Digest>, files: seq<Entry>,
                                   archive: Archive)
    returns (length: nat)
    requires WellHinted(fetched, signature) && packages != [] && DistinctTexts(files)
    requires Written(PriorityNames(root, config, bundleYAML, fetched, signature), files, archive)
    requires DescribesPackages(r, fetched, packages, Blobs(archive)) && Fetchable(r, packages, Blobs(archive))
    ensures length <= |archive| && forall i :: 0 <= i < |archive| ==>
              (i < length <==> archive[i].name in PriorityNames(root, config, bundleYAML, fetched, signature))
    ensures var first := RunPass(r, packages, archive, Initial(packages), 0);
            && first.error.None? && first.read <= length && Finished(packages, first.state)
            && SecondPass(r, packages, archive, first.state).read == 0
  {
    var names := PriorityNames(root, config, bundleYAML, fetched, signature);
    var rank :| Ranks(names, |names|, rank) && StrictlySorted(Comparator(rank), archive);
    PermutedTexts(files, archive);
    length := PriorityPrefix(rank, archive, |archive|);
    forall n ensures n in rank <==> n in names {
      if n in rank {
        assert names[rank[n]] == n;
      }
    }
    OnePassByRank(r, packages, root, config, bundleYAML, fetched, signature, archive, rank, length);
  }

  lemma PermutedTexts(files: seq<Entry>, archive: seq<Entry>)
    requires DistinctTexts(files) && multiset(archive) == multiset(files)
    ensures DistinctTexts(archive)
  {
    var xs := seq(|files|, i requires 0 <= i < |files| => Text(files[i].name));
    var ys := seq(|archive|, i requires 0 <= i < |archive| => Text(archive[i].name));
    assert |files| == |multiset(files)| == |archive|;
    assert NoDuplicates(xs);
    NoDuplicatesCardinality(xs);
    forall t | t in xs ensures t in ys {
      var i :| 0 <= i < |files| && xs[i] == t;
      assert files[i] in multiset(archive);
      var j :| 0 <= j < |archive| && archive[j] == files[i];
      assert ys[j] == t;
    }
    SubsetCardinality(Elements(xs), Elements(ys));
    ElementsCardinality(ys);
    forall i, j | 0 <= i < j < |archive| ensures Text(archive[i].name) != Text(archive[j].name) {
      assert ys[i] != ys[j];
    }
  }

  lemma RankedPrefixReady(r: Reader, packages: seq<Package>, root: Digest, config: Digest, bundleYAML: Digest,
                          fetched: seq<Fetched>, signature: Option<Digest>, archive: Archive,
                          rank: map<ArchiveName, nat>, length: nat)
    requires WellHinted(fetched, signature)
    requires var names := PriorityNames(root, config, bundleYAML, fetched, signature); Ranks(names, |names|, rank)
    requires DistinctTexts(archive) && StrictlySorted(Comparator(rank), archive)
    requires length <= |archive| && forall i :: 0 <= i < |archive| ==> (i < length <==> archive[i].name in rank)
    requires DescribesPackages(r, fetched, packages, Blobs(archive))
    ensures PrefixReady(r, packages, archive, length)
  {
    DistinctNamesInArchive(archive);
    BlobsByIndex(archive);
    forall i | 0 <= i < |archive| && archive[i].name.Blob? && archive[i].name.digest in ManifestDigests(packages)
      ensures i < length
      ensures r.parse(archive[i].data).Some? ==> MetadataWithin(archive, r.parse(archive[i].data).value, i, length) {
      ManifestReady(r, packages, root, config, bundleYAML, fetched, signature, archive, rank, length, i);
    }
  }

  lemma OnePassByRank(r: Reader, packages: seq<Package>, root: Digest, config: Digest, bundleYAML: Digest,
                      fetched: seq<Fetched>, signature: Option<Digest>, archive: Archive,
                      rank: map<ArchiveName, nat>, length: nat)
    requires WellHinted(fetched, signature) && packages != []
    requires var names := PriorityNames(root, config, bundleYAML, fetched, signature); Ranks(names, |names|, rank)
    requires DistinctTexts(archive) && StrictlySorted(Comparator(rank), archive)
    requires length <= |archive| && forall i :: 0 <= i < |archive| ==> (i < length <==> archive[i].name in rank)
    requires DescribesPackages(r, fetched, packages, Blobs(archive)) && Fetchable(r, packages, Blobs(archive))
    ensures var first := RunPass(r, packages, archive, Initial(packages), 0);
            && first.error.None? && first.read <= length && Finished(packages, first.state)
            && SecondPass(r, packages, archive, first.state).read == 0
  {
    var blobs := Blobs(archive);
    DistinctNamesInArchive(archive);
    BlobsByIndex(archive);
    HintedDigestsDistinct(r, fetched, signature, packages, blobs);
    RankedPrefixReady(r, packages, root, config, bundleYAML, fetched, signature, archive, rank, length);
    StoredIsFast(r, packages, archive, length);
    FastInOnePass(r, packages, archive, length);
  }

  lemma StoredIsFast(r: Reader, packages: seq<Package>, archive: Archive, length: nat)
    requires Fetchable(r, packages, Blobs(archive)) && DistinctDigests(packages) && DistinctTexts(archive)
    requires PrefixReady(r, packages, archive, length)
    ensures FastArchive(r, packages, archive, Blobs(archive), length)
  {
    DistinctNamesInArchive(archive);
    BlobsByIndex(archive);
  }

  lemma FastInOnePass(r: Reader, packages: seq<Package>, archive: Archive, length: nat)
    requires FastArchive(r, packages, archive, Blobs(archive), length) && packages != []
    ensures var first := RunPass(r, packages, archive, Initial(packages), 0);
            && first.error.None? && first.read <= length && Finished(packages, first.state)
            && SecondPass(r, packages, archive, first.state).read == 0
  {
    InitialInv(r, packages, Blobs(archive));
    assert packages[0].manifestDigest in ManifestDigests(packages);
    OnePassWithinPrefix(r, packages, archive, Blobs(archive), Initial(packages), 0, length);
  }

  lemma DistinctNamesInArchive(archive: Archive)
    requires DistinctTexts(archive)
    ensures Consistent(archive)
    ensures forall k, l :: 0 <= k < |archive| && 0 <= l < |archive| && k != l ==> archive[k].name != archive[l].name
  {
    forall k, l | 0 <= k < l < |archive| ensures archive[k].name != archive[l].name {
      assert Text(archive[k].name) != Text(archive[l].name);
    }
  }

  lemma HintedDigestsDistinct(r: Reader, fetched: seq<Fetched>, signature: Option<Digest>, packages: seq<Package>,
                              blobs: map<Digest, Bytes>)
    requires WellHinted(fetched, signature) && DescribesPackages(r, fetched, packages, blobs)
    ensures DistinctDigests(packages)
  {
    forall i, j | 0 <= i < j < |packages| ensures packages[i].manifestDigest != packages[j].manifestDigest {
      assert DescribesPackage(r, fetched[i], packages[i].manifestDigest, blobs);
      assert DescribesPackage(r, fetched[j], packages[j].manifestDigest, blobs);
      assert fetched[i].appended != fetched[j].appended;
    }
  }

  lemma ManifestReady(r: Reader, packages: seq<Package>, root: Digest, config: Digest, bundleYAML: Digest,
                      fetched: seq<Fetched>, signature: Option<Digest>, archive: Archive,
                      rank: map<ArchiveName, nat>, length: nat, i: nat)
    requires WellHinted(fetched, signature)
    requires var names := PriorityNames(root, config, bundleYAML, fetched, signature); Ranks(names, |names|, rank)
    requires Consistent(archive) && StrictlySorted(Comparator(rank), archive)
    requires length <= |archive| && forall i :: 0 <= i < |archive| ==> (i < length <==> archive[i].name in rank)
    requires DescribesPackages(r, fetched, packages, Blobs(archive))
    requires i < |archive| && archive[i].name.Blob? && archive[i].name.digest in ManifestDigests(packages)
    ensures i < length
    ensures r.parse(archive[i].data).Some? ==> MetadataWithin(archive, r.parse(archive[i].data).value, i, length)
  {
    var d, blobs := archive[i].name.digest, Blobs(archive);
    BlobsByIndex(archive);
    var k :| 0 <= k < |packages| && packages[k].manifestDigest == d;
    assert DescribesPackage(r, fetched[k], d, blobs);
    ManifestRanked(root, config, bundleYAML, fetched, signature, rank, k);
    if r.parse(archive[i].data).Some? {
      var m := r.parse(archive[i].data).value;
      forall j | 0 <= j < |archive| && archive[j].name.Blob? && archive[j].name.digest in MetadataDigests(m)
        ensures i < j < length {
        assert Blob(archive[j].name.digest) in MetadataNames(fetched[k].layers);
        HintedOnce(fetched, signature, k);
        ManifestRanksFirst(root, config, bundleYAML, fetched, signature, rank, k, archive[j].name.digest);
        EntryBehind(rank, archive, i, j);
      }
    }
  }

  lemma EntryBehind(rank: map<ArchiveName, nat>, archive: Archive, i: nat, j: nat)
    requires StrictlySorted(Comparator(rank), archive) && i < |archive| && j < |archive|
    requires archive[i].name in rank && archive[j].name in rank && rank[archive[i].name] < rank[archive[j].name]
    ensures i < j
  {
    assert Comparator(rank)(archive[i], archive[j]) && !Comparator(rank)(archive[j], archive[i]);
  }

  lemma ManifestRanked(root: Digest, config: Digest, bundleYAML: Digest, fetched: seq<Fetched>,
                       signature: Option<Digest>, rank: map<ArchiveName, nat>, i: nat)
    requires i < |fetched| && |fetched[i].appended| == 1
    requires var names := PriorityNames(root, config, bundleYAML, fetched, signature); Ranks(names, |names|, rank)
    ensures Blob(fetched[i].appended[0]) in rank
  {
    var names := PriorityNames(root, config, bundleYAML, fetched, signature);
    ManifestListed(fetched, i, |fetched|);
    assert Blob(fetched[i].appended[0]) in names;
  }
}
