/** The metadata prefetch when packages share a manifest digest: what it finds then, and when that is enough. */
module SharedDigests {
  import opened Wrappers
  import opened Sequences
  import opened Oci
  import opened Prefetch

  lemma SharedCount(packages: seq<Package>)
    requires !DistinctDigests(packages)
    ensures |ManifestDigests(packages)| < |packages|
  {
    var digests := seq(|packages|, i requires 0 <= i < |packages| => packages[i].manifestDigest);
    ElementsCardinality(digests);
    forall d ensures d in Elements(digests) <==> d in ManifestDigests(packages) {
      if d in ManifestDigests(packages) {
        var i :| 0 <= i < |packages| && packages[i].manifestDigest == d;
        assert digests[i] == d;
      }
    }
    assert Elements(digests) == ManifestDigests(packages);
    var i, j :| 0 <= i < j < |packages| && packages[i].manifestDigest == packages[j].manifestDigest;
    assert digests[i] == digests[j];
  }

  /** Entry k is a manifest that names d as metadata. */
  ghost predicate AsksAt(r: Reader, packages: seq<Package>, archive: Archive, k: nat, d: Digest)
    requires k < |archive|
  {
    && archive[k].name.Blob? && archive[k].name.digest in ManifestDigests(packages)
    && r.parse(archive[k].data).Some? && d in MetadataDigests(r.parse(archive[k].data).value)
  }

  /** Before entry i it is known that d is wanted: d is a manifest, or a manifest that names it has come by. */
  ghost predicate Asked(r: Reader, packages: seq<Package>, archive: Archive, i: nat, d: Digest)
    requires i <= |archive|
  {
    d in ManifestDigests(packages) || exists k :: 0 <= k < i && AsksAt(r, packages, archive, k, d)
  }

  ghost predicate ReachedAt(r: Reader, packages: seq<Package>, archive: Archive, j: nat, d: Digest)
    requires j < |archive|
  {
    archive[j].name == Blob(d) && Asked(r, packages, archive, j, d)
  }

  /** Among the first i entries one holds d and stands where d is already known to be wanted. */
  ghost predicate Reached(r: Reader, packages: seq<Package>, archive: Archive, i: nat, d: Digest)
    requires i <= |archive|
  {
    exists j :: 0 <= j < i && ReachedAt(r, packages, archive, j, d)
  }

  lemma AskedNext(r: Reader, packages: seq<Package>, archive: Archive, i: nat, d: Digest)
    requires i < |archive|
    ensures Asked(r, packages, archive, i + 1, d)
       <==> Asked(r, packages, archive, i, d) || AsksAt(r, packages, archive, i, d)
  {
  }

  lemma ReachedNext(r: Reader, packages: seq<Package>, archive: Archive, i: nat, d: Digest)
    requires i < |archive|
    ensures Reached(r, packages, archive, i + 1, d)
       <==> Reached(r, packages, archive, i, d) || ReachedAt(r, packages, archive, i, d)
  {
  }

  /** Where one digest stands before entry i. */
  ghost predicate Trace(r: Reader, packages: seq<Package>, archive: Archive, st: State, i: nat, d: Digest)
    requires i <= |archive|
  {
    && (d in st.captured <==> Reached(r, packages, archive, i, d))
    && (d in st.needed <==> Asked(r, packages, archive, i, d) && !Reached(r, packages, archive, i, d))
  }

  ghost predicate Traced(r: Reader, packages: seq<Package>, archive: Archive, st: State, i: nat)
    requires i <= |archive|
  {
    forall d :: Trace(r, packages, archive, st, i, d)
  }

  lemma InitialTraced(r: Reader, packages: seq<Package>, archive: Archive)
    ensures Traced(r, packages, archive, Initial(packages), 0)
  {
    forall d ensures Trace(r, packages, archive, Initial(packages), 0, d) {
    }
  }

  /** An entry that comes by again asks for nothing new. */
  lemma RepeatedManifest(r: Reader, packages: seq<Package>, archive: Archive, i: nat, d: Digest)
    requires i < |archive| && Consistent(archive) && AsksAt(r, packages, archive, i, d)
    requires Reached(r, packages, archive, i, archive[i].name.digest)
    ensures Asked(r, packages, archive, i, d)
  {
    var j :| 0 <= j < i && ReachedAt(r, packages, archive, j, archive[i].name.digest);
    assert AsksAt(r, packages, archive, j, d);
  }

  lemma SkippedEntry(r: Reader, packages: seq<Package>, archive: Archive, st: State, i: nat)
    requires i < |archive| && Consistent(archive) && Traced(r, packages, archive, st, i)
    requires archive[i].name.Plain? || archive[i].name.digest !in st.needed
    ensures Traced(r, packages, archive, st, i + 1)
  {
    var k := i + 1;
    forall d ensures Trace(r, packages, archive, st, k, d) {
      assert Trace(r, packages, archive, st, i, d);
      AskedNext(r, packages, archive, i, d);
      ReachedNext(r, packages, archive, i, d);
      if AsksAt(r, packages, archive, i, d) {
        assert Trace(r, packages, archive, st, i, archive[i].name.digest);
        RepeatedManifest(r, packages, archive, i, d);
      }
    }
  }

  lemma TakenEntry(r: Reader, packages: seq<Package>, archive: Archive, st: State, i: nat)
    requires i < |archive| && Traced(r, packages, archive, st, i)
    requires archive[i].name.Blob? && archive[i].name.digest in st.needed
    requires !Handle(r, packages, st, archive[i]).1.Fail?
    ensures Traced(r, packages, archive, Handle(r, packages, st, archive[i]).0, i + 1)
  {
    var next := Handle(r, packages, st, archive[i]).0;
    assert Trace(r, packages, archive, st, i, archive[i].name.digest);
    var k := i + 1;
    forall d ensures Trace(r, packages, archive, next, k, d) {
      assert Trace(r, packages, archive, st, i, d);
      AskedNext(r, packages, archive, i, d);
      ReachedNext(r, packages, archive, i, d);
    }
  }

  /** A wanted entry is within the limit, and parses if it is a manifest. */
  ghost predicate Acceptable(r: Reader, packages: seq<Package>, archive: Archive, j: nat)
    requires j < |archive|
  {
    archive[j].name.Blob? && Asked(r, packages, archive, j, archive[j].name.digest) ==>
      |archive[j].data| <= r.cap
      && (archive[j].name.digest in ManifestDigests(packages) ==> r.parse(archive[j].data).Some?)
  }

  ghost predicate AcceptableFrom(r: Reader, packages: seq<Package>, archive: Archive, i: nat) {
    forall j :: i <= j < |archive| ==> Acceptable(r, packages, archive, j)
  }

  /** A single entry fails exactly when it is not acceptable. */
  lemma EntryAcceptable(r: Reader, packages: seq<Package>, archive: Archive, blobs: map<Digest, Bytes>, st: State,
                        i: nat)
    requires i < |archive| && Traced(r, packages, archive, st, i)
    requires Sound(r, packages, blobs, st) && MatchesBlobs(archive, blobs)
    ensures Handle(r, packages, st, archive[i]).1.Fail? <==> !Acceptable(r, packages, archive, i)
  {
    if archive[i].name.Blob? {
      assert Trace(r, packages, archive, st, i, archive[i].name.digest);
      if archive[i].name.digest in st.captured && archive[i].name.digest in ManifestDigests(packages) {
        assert archive[i].name.digest in st.parsed;
      }
    }
  }

  lemma NeverFinished(r: Reader, packages: seq<Package>, blobs: map<Digest, Bytes>, st: State)
    requires !DistinctDigests(packages) && Sound(r, packages, blobs, st)
    ensures |st.parsed| < |packages| && !Finished(packages, st)
  {
    SharedCount(packages);
    assert |st.parsed| == |st.parsed.Keys|;
    SubsetCardinality(st.parsed.Keys, ManifestDigests(packages));
  }

  lemma EntryStep(r: Reader, packages: seq<Package>, archive: Archive, blobs: map<Digest, Bytes>, st: State, i: nat)
    requires !DistinctDigests(packages) && Consistent(archive) && MatchesBlobs(archive, blobs) && i < |archive|
    requires Sound(r, packages, blobs, st) && Traced(r, packages, archive, st, i)
    ensures var (next, signal) := Handle(r, packages, st, archive[i]);
            && (signal.Fail? <==> !Acceptable(r, packages, archive, i)) && !signal.SkipAll?
            && (!signal.Fail? ==> Sound(r, packages, blobs, next) && Traced(r, packages, archive, next, i + 1))
  {
    EntryAcceptable(r, packages, archive, blobs, st, i);
    if !Handle(r, packages, st, archive[i]).1.Fail? {
      HandleSound(r, packages, blobs, st, archive[i]);
      NeverFinished(r, packages, blobs, Handle(r, packages, st, archive[i]).0);
      if archive[i].name.Plain? || archive[i].name.digest !in st.needed {
        SkippedEntry(r, packages, archive, st, i);
      } else {
        TakenEntry(r, packages, archive, st, i);
      }
    }
  }

  /** A pass is never cut short: it reads the whole archive unless an entry fails, and captures what is reached. */
  lemma {:induction false} WholePass(r: Reader, packages: seq<Package>, archive: Archive, blobs: map<Digest, Bytes>,
                                     st: State, i: nat)
    requires !DistinctDigests(packages) && Consistent(archive) && MatchesBlobs(archive, blobs) && i <= |archive|
    requires Sound(r, packages, blobs, st) && Traced(r, packages, archive, st, i)
    ensures var p := RunPass(r, packages, archive, st, i);
            && (p.error.None? <==> AcceptableFrom(r, packages, archive, i))
            && (p.error.None? ==> p.read == |archive| && Sound(r, packages, blobs, p.state)
                                  && Traced(r, packages, archive, p.state, |archive|))
    decreases |archive| - i
  {
    if i < |archive| {
      EntryStep(r, packages, archive, blobs, st, i);
      var (next, signal) := Handle(r, packages, st, archive[i]);
      if signal.Continue? {
        WholePass(r, packages, archive, blobs, next, i + 1);
      }
    }
  }

  /** The blobs of the archive that stand where they are known to be wanted. */
  ghost function FoundBehind(r: Reader, packages: seq<Package>, archive: Archive): map<Digest, Bytes> {
    map d | d in Blobs(archive) && Reached(r, packages, archive, |archive|, d) :: Blobs(archive)[d]
  }

  lemma CapturedIsFound(r: Reader, packages: seq<Package>, archive: Archive, st: State)
    requires Sound(r, packages, Blobs(archive), st) && Traced(r, packages, archive, st, |archive|)
    ensures st.captured == FoundBehind(r, packages, archive)
  {
    forall d ensures d in st.captured <==> d in FoundBehind(r, packages, archive) {
      assert Trace(r, packages, archive, st, |archive|, d);
    }
  }

  lemma FoundAgrees(r: Reader, packages: seq<Package>, blobs: map<Digest, Bytes>, st: State, d: Digest)
    requires Sound(r, packages, blobs, st) && d in ManifestDigests(packages)
    ensures Agrees(r, st.captured, st, d)
  {
  }

  /** With a shared digest the prefetch is exactly one pass over the whole archive: there is no second pass, and nothing
      is reported missing. */
  lemma OneWholePass(r: Reader, packages: seq<Package>, archive: Archive)
    requires !DistinctDigests(packages) && Consistent(archive)
    ensures var first := RunPass(r, packages, archive, Initial(packages), 0);
            && (first.error.None? <==> AcceptableFrom(r, packages, archive, 0))
            && (first.error.None? ==>
                  && first.read == |archive| && Sound(r, packages, Blobs(archive), first.state)
                  && first.state.captured == FoundBehind(r, packages, archive))
            && Prefetched(r, packages, archive) ==
               if first.error.Some? then Err(first.error.value) else Resolve(packages, first.state)
  {
    BlobsByIndex(archive);
    InitialInv(r, packages, Blobs(archive));
    InitialTraced(r, packages, archive);
    WholePass(r, packages, archive, Blobs(archive), Initial(packages), 0);
    var first := RunPass(r, packages, archive, Initial(packages), 0);
    if first.error.None? {
      CapturedIsFound(r, packages, archive, first.state);
      NeverFinished(r, packages, Blobs(archive), first.state);
    }
  }

  /** With a shared digest the prefetch gives what lookups give among the blobs that stand behind a manifest naming
      them: it succeeds exactly when every wanted entry is acceptable and these lookups find all packages. */
  lemma SharedDigestOutcome(r: Reader, packages: seq<Package>, archive: Archive)
    requires !DistinctDigests(packages) && Consistent(archive)
    ensures var found := FoundBehind(r, packages, archive);
            && (Prefetched(r, packages, archive).Ok? <==>
                  AcceptableFrom(r, packages, archive, 0) && UsableUpTo(r, packages, found, |packages|))
            && (Prefetched(r, packages, archive).Ok? ==>
                  LookedUp(r, packages, found, |packages|, Prefetched(r, packages, archive).value))
  {
    OneWholePass(r, packages, archive);
    var first := RunPass(r, packages, archive, Initial(packages), 0);
    if first.error.None? {
      forall i | 0 <= i < |packages| ensures Agrees(r, first.state.captured, first.state, packages[i].manifestDigest) {
        assert packages[i].manifestDigest in ManifestDigests(packages);
        FoundAgrees(r, packages, Blobs(archive), first.state, packages[i].manifestDigest);
      }
      ResolveAgrees(r, packages, first.state.captured, first.state, |packages|);
    }
  }

  // When that is all of it.

  function MetadataOf(r: Reader, blobs: map<Digest, Bytes>, m: Digest): set<Digest> {
    if m in blobs && r.parse(blobs[m]).Some? then MetadataDigests(r.parse(blobs[m]).value) else {}
  }

  /** Every metadata blob is a manifest itself or stands behind some manifest that names it. */
  ghost predicate MetadataBehind(r: Reader, packages: seq<Package>, archive: Archive) {
    forall m, x :: m in ManifestDigests(packages) && x in MetadataOf(r, Blobs(archive), m) ==>
      Reached(r, packages, archive, |archive|, x)
  }

  ghost predicate TitlesOnce(m: Manifest) {
    forall i, k :: 0 <= i < |m.layers| && 0 <= k < |m.layers| && i != k && m.layers[k].IsMetadata() ==>
      m.layers[i].title != m.layers[k].title
  }

  ghost predicate TitlesUnique(r: Reader, packages: seq<Package>, blobs: map<Digest, Bytes>) {
    forall m :: m in ManifestDigests(packages) && m in blobs && r.parse(blobs[m]).Some? ==>
      TitlesOnce(r.parse(blobs[m]).value)
  }

  /** Where a title occurs once, it is missing from the directory when its blob is. */
  lemma {:induction false} DirectoryLacks(layers: seq<Layer>, blobs: map<Digest, Bytes>, k: nat)
    requires k < |layers| && layers[k].digest !in blobs
    requires forall i :: 0 <= i < |layers| && i != k ==> layers[i].title != layers[k].title
    ensures layers[k].title !in Directory(layers, blobs)
  {
    if k < |layers| - 1 {
      DirectoryLacks(layers[..|layers| - 1], blobs, k);
    } else {
      TitleAbsent(layers[..k], blobs, layers[k].title);
    }
  }

  lemma {:induction false} TitleAbsent(layers: seq<Layer>, blobs: map<Digest, Bytes>, title: Title)
    requires forall i :: 0 <= i < |layers| ==> layers[i].title != title
    ensures title !in Directory(layers, blobs)
  {
    if layers != [] {
      TitleAbsent(layers[..|layers| - 1], blobs, title);
    }
  }

  /** Equal directories hold every blob whose title occurs once. */
  lemma DirectoriesNeedAll(m: Manifest, found: map<Digest, Bytes>, blobs: map<Digest, Bytes>, x: Digest)
    requires TitlesOnce(m) && x in MetadataDigests(m) && x in blobs
    requires Directory(m.layers, found) == Directory(m.layers, blobs)
    ensures x in found
  {
    var k :| 0 <= k < |m.layers| && m.layers[k].IsMetadata() && m.layers[k].digest == x;
    DirectoryFile(m.layers, blobs, k);
    if x !in found {
      DirectoryLacks(m.layers, found, k);
    }
  }

  /** What lookups find is acceptable. */
  lemma FetchableAcceptable(r: Reader, packages: seq<Package>, archive: Archive)
    requires Consistent(archive) && Fetchable(r, packages, Blobs(archive))
    ensures AcceptableFrom(r, packages, archive, 0)
  {
    BlobsByIndex(archive);
    forall j | 0 <= j < |archive| ensures Acceptable(r, packages, archive, j) {
      if archive[j].name.Blob? && Asked(r, packages, archive, j, archive[j].name.digest) {
        var d := archive[j].name.digest;
        if d in ManifestDigests(packages) {
          assert PackageFetchable(r, Blobs(archive), d);
        } else {
          var k :| 0 <= k < j && AsksAt(r, packages, archive, k, d);
          assert PackageFetchable(r, Blobs(archive), archive[k].name.digest);
        }
      }
    }
  }

  lemma ManifestReached(r: Reader, packages: seq<Package>, archive: Archive, m: Digest)
    requires Consistent(archive) && m in ManifestDigests(packages) && m in Blobs(archive)
    ensures m in FoundBehind(r, packages, archive)
  {
    BlobsByIndex(archive);
    var j :| 0 <= j < |archive| && archive[j].name == Blob(m);
    assert ReachedAt(r, packages, archive, j, m);
  }

  lemma SameLookup(r: Reader, packages: seq<Package>, archive: Archive, m: Digest)
    requires Consistent(archive) && m in ManifestDigests(packages) && PackageFetchable(r, Blobs(archive), m)
    requires MetadataBehind(r, packages, archive)
    ensures LookupDirectory(r, FoundBehind(r, packages, archive), m) == LookupDirectory(r, Blobs(archive), m)
    ensures Usable(r, Blobs(archive), m)
  {
    var blobs, found := Blobs(archive), FoundBehind(r, packages, archive);
    ManifestReached(r, packages, archive, m);
    var layers := r.parse(blobs[m]).value.layers;
    forall l | l in layers && l.IsMetadata() ensures l.digest in found {
      assert l.digest in MetadataOf(r, blobs, m);
    }
    SameDirectory(layers, found, blobs);
    DirectoryHasZarfYAML(layers, blobs);
  }

  /** The prefetch succeeds with what direct lookups give. */
  ghost predicate GivesLookups(r: Reader, packages: seq<Package>, archive: Archive) {
    var result := Prefetched(r, packages, archive);
    result.Ok? && LookedUp(r, packages, Blobs(archive), |packages|, result.value)
  }

  lemma SameLookupAt(r: Reader, packages: seq<Package>, archive: Archive, i: nat)
    requires Consistent(archive) && Fetchable(r, packages, Blobs(archive)) && MetadataBehind(r, packages, archive)
    requires i < |packages|
    ensures LookupDirectory(r, FoundBehind(r, packages, archive), packages[i].manifestDigest)
         == LookupDirectory(r, Blobs(archive), packages[i].manifestDigest)
    ensures Usable(r, Blobs(archive), packages[i].manifestDigest)
  {
    assert packages[i].manifestDigest in ManifestDigests(packages);
    SameLookup(r, packages, archive, packages[i].manifestDigest);
  }

  lemma LookedUpEither(r: Reader, packages: seq<Package>, x: map<Digest, Bytes>, y: map<Digest, Bytes>,
                       results: map<string, map<Title, Bytes>>)
    requires LookedUp(r, packages, x, |packages|, results)
    requires forall i :: 0 <= i < |packages| ==>
               LookupDirectory(r, x, packages[i].manifestDigest) == LookupDirectory(r, y, packages[i].manifestDigest)
    ensures LookedUp(r, packages, y, |packages|, results)
  {
  }

  lemma BehindGivesLookups(r: Reader, packages: seq<Package>, archive: Archive)
    requires !DistinctDigests(packages) && Consistent(archive) && Fetchable(r, packages, Blobs(archive))
    requires MetadataBehind(r, packages, archive)
    ensures GivesLookups(r, packages, archive)
  {
    var found := FoundBehind(r, packages, archive);
    SharedDigestOutcome(r, packages, archive);
    FetchableAcceptable(r, packages, archive);
    forall i | 0 <= i < |packages|
      ensures LookupDirectory(r, found, packages[i].manifestDigest)
           == LookupDirectory(r, Blobs(archive), packages[i].manifestDigest)
      ensures Usable(r, found, packages[i].manifestDigest) {
      SameLookupAt(r, packages, archive, i);
    }
    assert UsableUpTo(r, packages, found, |packages|);
    LookedUpEither(r, packages, found, Blobs(archive), Prefetched(r, packages, archive).value);
  }

  lemma AgreementNeedsAll(r: Reader, packages: seq<Package>, archive: Archive, results: map<string, map<Title, Bytes>>)
    requires Consistent(archive) && Fetchable(r, packages, Blobs(archive)) && TitlesUnique(r, packages, Blobs(archive))
    requires LookedUp(r, packages, Blobs(archive), |packages|, results)
    requires LookedUp(r, packages, FoundBehind(r, packages, archive), |packages|, results)
    ensures MetadataBehind(r, packages, archive)
  {
    forall m, x | m in ManifestDigests(packages) && x in MetadataOf(r, Blobs(archive), m)
      ensures Reached(r, packages, archive, |archive|, x) {
      AgreementNeeds(r, packages, archive, results, m, x);
    }
  }

  lemma AgreementNeeds(r: Reader, packages: seq<Package>, archive: Archive, results: map<string, map<Title, Bytes>>,
                       m: Digest, x: Digest)
    requires Consistent(archive) && TitlesUnique(r, packages, Blobs(archive)) && PackageFetchable(r, Blobs(archive), m)
    requires LookedUp(r, packages, Blobs(archive), |packages|, results)
    requires LookedUp(r, packages, FoundBehind(r, packages, archive), |packages|, results)
    requires m in ManifestDigests(packages) && x in MetadataOf(r, Blobs(archive), m)
    ensures x in FoundBehind(r, packages, archive)
  {
    var blobs, found := Blobs(archive), FoundBehind(r, packages, archive);
    var i :| 0 <= i < |packages| && packages[i].manifestDigest == m;
    assert packages[i].name in results;
    ManifestReached(r, packages, archive, m);
    DirectoriesNeedAll(r.parse(blobs[m]).value, found, blobs, x);
  }

  /** Where lookups succeed, the prefetch with a shared digest gives the same if every metadata blob stands behind a
      manifest that names it; and only then, when a manifest uses each title once. */
  lemma SharedDigestIsLookup(r: Reader, packages: seq<Package>, archive: Archive)
    requires !DistinctDigests(packages) && Consistent(archive) && Fetchable(r, packages, Blobs(archive))
    ensures MetadataBehind(r, packages, archive) ==> GivesLookups(r, packages, archive)
    ensures GivesLookups(r, packages, archive) && TitlesUnique(r, packages, Blobs(archive)) ==>
              MetadataBehind(r, packages, archive)
  {
    if MetadataBehind(r, packages, archive) {
      BehindGivesLookups(r, packages, archive);
    }
    if GivesLookups(r, packages, archive) && TitlesUnique(r, packages, Blobs(archive)) {
      SharedDigestOutcome(r, packages, archive);
      AgreementNeedsAll(r, packages, archive, Prefetched(r, packages, archive).value);
    }
  }

  // All archives.

  /** Where the prefetch looks: everywhere with distinct manifest digests, and with a shared one among the blobs that
      stand behind a manifest naming them. */
  ghost function LookedAt(r: Reader, packages: seq<Package>, archive: Archive): map<Digest, Bytes> {
    if DistinctDigests(packages) then Blobs(archive) else FoundBehind(r, packages, archive)
  }

  /** Whatever the packages and the order of the archive, the prefetch gives what lookups give there. */
  lemma PrefetchOutcome(r: Reader, packages: seq<Package>, archive: Archive)
    requires Consistent(archive)
    ensures var result := Prefetched(r, packages, archive);
            && (result.Ok? <==>
                  if DistinctDigests(packages) then Fetchable(r, packages, Blobs(archive))
                  else AcceptableFrom(r, packages, archive, 0)
                       && UsableUpTo(r, packages, FoundBehind(r, packages, archive), |packages|))
            && (result.Ok? ==> LookedUp(r, packages, LookedAt(r, packages, archive), |packages|, result.value))
  {
    if DistinctDigests(packages) {
      PrefetchIsLookup(r, packages, archive);
    } else {
      SharedDigestOutcome(r, packages, archive);
    }
  }

  // The condition can fail.

  /** Two packages that share manifest m, whose zarf.yaml is blob z and whose signature is blob s. */
  datatype Sample = Sample(a: string, b: string, m: Digest, z: Digest, s: Digest) {
    predicate Distinct() {
      a != b && m != z && m != s && z != s
    }
  }

  function Signed(x: Sample): Manifest {
    Manifest([Layer(x.z, ZarfYAML), Layer(x.s, LegacySignature)])
  }

  function SignedReader(x: Sample): Reader {
    Reader(data => if data == "M" then Some(Signed(x)) else None, 100)
  }

  function Sharing(x: Sample): seq<Package> {
    [Package(x.a, x.m), Package(x.b, x.m)]
  }

  /** The signature stands in front of the manifest. */
  function SignatureFirst(x: Sample): Archive {
    [Entry(Blob(x.s), "S"), Entry(Blob(x.m), "M"), Entry(Blob(x.z), "Z")]
  }

  lemma SampleDigests(x: Sample)
    ensures ManifestDigests(Sharing(x)) == {x.m} && MetadataDigests(Signed(x)) == {x.z, x.s}
    ensures !DistinctDigests(Sharing(x))
  {
    var packages, layers := Sharing(x), Signed(x).layers;
    assert packages[0].manifestDigest == packages[1].manifestDigest == x.m;
    assert layers[0].digest == x.z && layers[1].digest == x.s && layers[0].IsMetadata() && layers[1].IsMetadata();
  }

  lemma SampleBlobs(x: Sample)
    requires x.Distinct()
    ensures Blobs(SignatureFirst(x)) == map[x.s := "S", x.m := "M", x.z := "Z"] && Consistent(SignatureFirst(x))
  {
    var archive := SignatureFirst(x);
    assert archive[..2] == [archive[0], archive[1]] && archive[..2][..1] == [archive[0]];
    assert archive[..2][..1][..0] == [];
    assert Blobs([archive[0]]) == map[x.s := "S"];
    assert Blobs([archive[0], archive[1]]) == map[x.s := "S", x.m := "M"];
  }

  /** The signature is not reached, everything else is. */
  lemma SampleReached(x: Sample)
    requires x.Distinct()
    ensures FoundBehind(SignedReader(x), Sharing(x), SignatureFirst(x)) == map[x.m := "M", x.z := "Z"]
    ensures AcceptableFrom(SignedReader(x), Sharing(x), SignatureFirst(x), 0)
  {
    var r, packages, archive := SignedReader(x), Sharing(x), SignatureFirst(x);
    SampleDigests(x);
    SampleBlobs(x);
    assert AsksAt(r, packages, archive, 1, x.z) && Asked(r, packages, archive, 2, x.z);
    assert ReachedAt(r, packages, archive, 2, x.z) && ReachedAt(r, packages, archive, 1, x.m);
    assert !ReachedAt(r, packages, archive, 0, x.s);
    forall d ensures Reached(r, packages, archive, 3, d) <==> d == x.m || d == x.z {
      if Reached(r, packages, archive, 3, d) {
        var j :| 0 <= j < 3 && ReachedAt(r, packages, archive, j, d);
      }
    }
  }

  lemma SampleDirectory(x: Sample, blobs: map<Digest, Bytes>)
    requires x.z in blobs
    ensures ZarfYAML in Directory(Signed(x).layers, blobs)
    ensures LegacySignature in Directory(Signed(x).layers, blobs) <==> x.s in blobs
  {
    var layers := Signed(x).layers;
    assert layers[..1] == [layers[0]] && layers[..1][..0] == [];
    assert Directory(layers[..1][..0], blobs) == map[];
    assert Directory(layers[..1], blobs) == map[ZarfYAML := blobs[x.z]];
  }

  lemma SampleFetchable(x: Sample)
    requires x.Distinct()
    ensures Fetchable(SignedReader(x), Sharing(x), Blobs(SignatureFirst(x)))
  {
    SampleDigests(x);
    SampleBlobs(x);
    assert Signed(x).layers[0].title == ZarfYAML && Signed(x).layers[0] in Signed(x).layers;
  }

  lemma SampleLookups(x: Sample)
    requires x.Distinct()
    ensures var found := FoundBehind(SignedReader(x), Sharing(x), SignatureFirst(x));
            && UsableUpTo(SignedReader(x), Sharing(x), found, 2)
            && LegacySignature !in LookupDirectory(SignedReader(x), found, x.m)
    ensures LegacySignature in LookupDirectory(SignedReader(x), Blobs(SignatureFirst(x)), x.m)
  {
    SampleBlobs(x);
    SampleReached(x);
    SampleDirectory(x, map[x.m := "M", x.z := "Z"]);
    SampleDirectory(x, Blobs(SignatureFirst(x)));
  }

  /** A signature that precedes the manifest two packages share is silently lost, although lookups find it. */
  lemma SharedDigestLosesMetadata(x: Sample)
    requires x.Distinct()
    ensures var r, packages, archive := SignedReader(x), Sharing(x), SignatureFirst(x);
            var result := Prefetched(r, packages, archive);
            && !DistinctDigests(packages) && Consistent(archive) && Fetchable(r, packages, Blobs(archive))
            && result.Ok? && x.a in result.value && LegacySignature !in result.value[x.a]
            && LegacySignature in LookupDirectory(r, Blobs(archive), x.m)
  {
    var r, packages, archive := SignedReader(x), Sharing(x), SignatureFirst(x);
    SampleDigests(x);
    SampleBlobs(x);
    SampleFetchable(x);
    SampleReached(x);
    SampleLookups(x);
    SharedDigestOutcome(r, packages, archive);
    assert packages[0].name == x.a;
  }
}
