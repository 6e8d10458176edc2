/** What a prefetch delivers, told by layer titles and archive entries: pkg/legacy/bundle/tarball_prefetch.go. */
module PrefetchedFiles {
  import opened Oci
  import opened Prefetch

  /** Some entry of the archive is this blob, and it is small enough to be captured. */
  ghost predicate Stored(r: Reader, archive: Archive, d: Digest) {
    exists j :: 0 <= j < |archive| && archive[j].name == Blob(d) && |archive[j].data| <= r.cap
  }

  /** The four files of a package that the prefetch is after. */
  ghost predicate Wants(layer: Layer) {
    || layer.title == ZarfYAML || layer.title == LegacySignature || layer.title == KeylessBundle
    || layer.title == Checksums
  }

  /** Every wanted layer of the manifest is stored, and one of them is zarf.yaml. */
  ghost predicate MetadataStored(r: Reader, archive: Archive, m: Manifest) {
    && (forall k :: 0 <= k < |m.layers| && Wants(m.layers[k]) ==> Stored(r, archive, m.layers[k].digest))
    && exists k :: 0 <= k < |m.layers| && m.layers[k].title == ZarfYAML
  }

  /** The entry is the package manifest, and all that it wants is stored. */
  ghost predicate ManifestAt(r: Reader, archive: Archive, d: Digest, j: nat) {
    && j < |archive| && archive[j].name == Blob(d) && |archive[j].data| <= r.cap
    && r.parse(archive[j].data).Some? && MetadataStored(r, archive, r.parse(archive[j].data).value)
  }

  ghost predicate PackageStored(r: Reader, archive: Archive, d: Digest) {
    exists j: nat :: ManifestAt(r, archive, d, j)
  }

  lemma StoredMeansBlob(r: Reader, archive: Archive, d: Digest)
    requires Consistent(archive)
    ensures Stored(r, archive, d) <==> d in Blobs(archive) && |Blobs(archive)[d]| <= r.cap
  {
    BlobsByIndex(archive);
  }

  lemma MetadataFetchable(r: Reader, archive: Archive, m: Manifest)
    requires Consistent(archive)
    ensures MetadataStored(r, archive, m) <==>
            && (forall x :: x in MetadataDigests(m) ==> x in Blobs(archive) && |Blobs(archive)[x]| <= r.cap)
            && exists l :: l in m.layers && l.title == ZarfYAML
  {
    forall d ensures Stored(r, archive, d) <==> d in Blobs(archive) && |Blobs(archive)[d]| <= r.cap {
      StoredMeansBlob(r, archive, d);
    }
    forall k | 0 <= k < |m.layers| && Wants(m.layers[k]) ensures m.layers[k].digest in MetadataDigests(m) {
    }
    if k :| 0 <= k < |m.layers| && m.layers[k].title == ZarfYAML {
      assert m.layers[k] in m.layers;
    }
  }

  lemma ManifestFetchable(r: Reader, archive: Archive, d: Digest)
    requires Consistent(archive)
    ensures PackageFetchable(r, Blobs(archive), d) <==> PackageStored(r, archive, d)
  {
    BlobsByIndex(archive);
    if j: nat :| ManifestAt(r, archive, d, j) {
      MetadataFetchable(r, archive, r.parse(archive[j].data).value);
    }
    if PackageFetchable(r, Blobs(archive), d) {
      var j :| 0 <= j < |archive| && archive[j].name == Blob(d);
      MetadataFetchable(r, archive, r.parse(archive[j].data).value);
      assert ManifestAt(r, archive, d, j);
    }
  }

  /** With distinct manifest digests the prefetch succeeds exactly when the archive holds, small enough to be captured,
      each package's manifest and every blob it titles zarf.yaml, as either signature or as checksums, zarf.yaml being
      among them, and package names differ. A single one of these blobs missing or too large makes it fail. */
  lemma PrefetchSucceeds(r: Reader, packages: seq<Package>, archive: Archive)
    requires DistinctDigests(packages) && Consistent(archive)
    ensures Prefetched(r, packages, archive).Ok? <==>
            && (forall i :: 0 <= i < |packages| ==> PackageStored(r, archive, packages[i].manifestDigest))
            && forall i, j :: 0 <= i < j < |packages| ==> packages[i].name != packages[j].name
  {
    PrefetchIsLookup(r, packages, archive);
    FetchableByIndex(r, packages, Blobs(archive));
    forall i | 0 <= i < |packages|
      ensures PackageFetchable(r, Blobs(archive), packages[i].manifestDigest) <==>
              PackageStored(r, archive, packages[i].manifestDigest) {
      ManifestFetchable(r, archive, packages[i].manifestDigest);
    }
  }

  /** A directory has the wanted titles of the layers, and for each the data of the last layer with it. */
  lemma {:induction false} LastLayerWins(layers: seq<Layer>, blobs: map<Digest, Bytes>, title: Title)
    requires forall k :: 0 <= k < |layers| && Wants(layers[k]) ==> layers[k].digest in blobs
    ensures title in Directory(layers, blobs) <==>
            exists k :: 0 <= k < |layers| && layers[k].title == title && Wants(layers[k])
    ensures forall k :: 0 <= k < |layers| && layers[k].title == title && Wants(layers[k])
                        && (forall l :: k < l < |layers| ==> layers[l].title != title) ==>
              title in Directory(layers, blobs) && Directory(layers, blobs)[title] == blobs[layers[k].digest]
  {
    if layers != [] {
      var init, last := layers[..|layers| - 1], |layers| - 1;
      LastLayerWins(init, blobs, title);
      if k :| 0 <= k < |layers| && layers[k].title == title && Wants(layers[k]) {
        assert k == last || init[k] == layers[k];
      }
      if title in Directory(init, blobs) {
        var k :| 0 <= k < |init| && init[k].title == title && Wants(init[k]);
        assert layers[k] == init[k];
      }
      forall k | 0 <= k < |layers| && layers[k].title == title && Wants(layers[k])
                 && (forall l :: k < l < |layers| ==> layers[l].title != title)
        ensures title in Directory(layers, blobs) && Directory(layers, blobs)[title] == blobs[layers[k].digest] {
        if k < last {
          assert init[k] == layers[k] && layers[last].title != title;
        }
      }
    }
  }

  /** What a successful prefetch has written for a package: no file but the four, each of them that the manifest names,
      and in it exactly the bytes that the archive holds for the layer, the last one if the manifest repeats a title. */
  lemma PrefetchedFile(r: Reader, packages: seq<Package>, archive: Archive, i: nat, j: nat, title: Title)
    requires DistinctDigests(packages) && Consistent(archive) && Prefetched(r, packages, archive).Ok?
    requires i < |packages| && ManifestAt(r, archive, packages[i].manifestDigest, j)
    ensures var files, layers := Prefetched(r, packages, archive).value, r.parse(archive[j].data).value.layers;
            && packages[i].name in files
            && (title in files[packages[i].name] <==>
                  && title in {ZarfYAML, LegacySignature, KeylessBundle, Checksums}
                  && exists k :: 0 <= k < |layers| && layers[k].title == title)
            && (forall k, e :: 0 <= k < |layers| && layers[k].title == title && 0 <= e < |archive|
                               && title in files[packages[i].name] && archive[e].name == Blob(layers[k].digest)
                               && (forall l :: k < l < |layers| ==> layers[l].title != title) ==>
                  files[packages[i].name][title] == archive[e].data)
  {
    PrefetchIsLookup(r, packages, archive);
    BlobsByIndex(archive);
    var blobs, layers := Blobs(archive), r.parse(archive[j].data).value.layers;
    forall k | 0 <= k < |layers| && Wants(layers[k]) ensures layers[k].digest in blobs {
      StoredMeansBlob(r, archive, layers[k].digest);
    }
    assert LookupDirectory(r, blobs, packages[i].manifestDigest) == Directory(layers, blobs);
    LastLayerWins(layers, blobs, title);
  }

  // What the errors mean.

  /** The entry cannot be captured, or it is a package's manifest and cannot be read. */
  ghost predicate AtFault(r: Reader, packages: seq<Package>, entry: Entry, error: PrefetchError) {
    match error
    case BlobTooLarge(d) => entry.name == Blob(d) && |entry.data| > r.cap
    case BadManifest(d) =>
      && entry.name == Blob(d) && r.parse(entry.data).None?
      && exists i :: 0 <= i < |packages| && packages[i].manifestDigest == d
    case _ => false
  }

  lemma {:induction false} PassError(r: Reader, packages: seq<Package>, archive: Archive, st: State, i: nat)
    requires i <= |archive| && RunPass(r, packages, archive, st, i).error.Some?
    ensures exists k :: i <= k < |archive| &&
              AtFault(r, packages, archive[k], RunPass(r, packages, archive, st, i).error.value)
    decreases |archive| - i
  {
    var (next, signal) := Handle(r, packages, st, archive[i]);
    if signal.Fail? {
      assert AtFault(r, packages, archive[i], signal.error);
    } else {
      PassError(r, packages, archive, next, i + 1);
    }
  }

  /** A package that cannot be resolved. */
  ghost predicate PackageAtFault(packages: seq<Package>, error: PrefetchError) {
    match error
    case ManifestNotFound(d) => exists i :: 0 <= i < |packages| && packages[i].manifestDigest == d
    case ZarfYAMLNotFound(n) => exists i :: 0 <= i < |packages| && packages[i].name == n
    case DuplicatePackage(n) => exists i, j :: 0 <= i < j < |packages| && packages[i].name == packages[j].name == n
    case _ => false
  }

  lemma {:induction false} ResolvedNames(packages: seq<Package>, st: State, k: nat)
    requires k <= |packages| && ResolveTo(packages, st, k).Ok?
    ensures forall n :: n in ResolveTo(packages, st, k).value ==> exists i :: 0 <= i < k && packages[i].name == n
  {
    if k > 0 {
      ResolvedNames(packages, st, k - 1);
    }
  }

  lemma {:induction false} ResolveError(packages: seq<Package>, st: State, k: nat)
    requires k <= |packages| && ResolveTo(packages, st, k).Err?
    ensures PackageAtFault(packages, ResolveTo(packages, st, k).error)
  {
    var before := ResolveTo(packages, st, k - 1);
    if before.Err? {
      ResolveError(packages, st, k - 1);
    } else {
      ResolvedNames(packages, st, k - 1);
    }
  }

  /** Every error names its cause: an entry too large to capture or no readable manifest, wanted blobs that two passes
      did not find, one of the packages' manifests or zarf.yaml, or a name that two packages share. */
  lemma ErrorExplained(r: Reader, packages: seq<Package>, archive: Archive)
    requires Prefetched(r, packages, archive).Err?
    ensures var error := Prefetched(r, packages, archive).error;
            if error.BlobTooLarge? || error.BadManifest?
            then exists k :: 0 <= k < |archive| && AtFault(r, packages, archive[k], error)
            else if error.MissingBlobs? then error.count > 0
            else PackageAtFault(packages, error)
  {
    var first := RunPass(r, packages, archive, Initial(packages), 0);
    if first.error.Some? {
      PassError(r, packages, archive, Initial(packages), 0);
    } else {
      var second := SecondPass(r, packages, archive, first.state);
      if second.error.Some? {
        PassError(r, packages, archive, first.state, 0);
      } else if !(second.state.needed != {} && |second.state.parsed| == |packages|) {
        ResolveError(packages, second.state, |packages|);
      }
    }
  }
}
