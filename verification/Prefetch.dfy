/** The one-pass metadata prefetch of pkg/legacy/bundle/tarball_prefetch.go, against plain lookups in the archive. */
module Prefetch {
  import opened Wrappers
  import opened Sequences
  import opened Oci

  /** The titles of manifest layers; those of the first four are package metadata and name the files they end up in. */
  datatype Title = ZarfYAML | LegacySignature | KeylessBundle | Checksums | OtherTitle(name: string)

  datatype Layer = Layer(digest: Digest, title: Title) {
    predicate IsMetadata() {
      !title.OtherTitle?
    }
  }

  datatype Manifest = Manifest(layers: seq<Layer>)

  /** Archive names under blobs/sha256/ are blobs, everything else is not looked at. */
  datatype ArchiveName = Blob(digest: Digest) | Plain(name: string)

  datatype Entry = Entry(name: ArchiveName, data: Bytes)

  type Archive = seq<Entry>

  datatype Package = Package(name: string, manifestDigest: Digest)

  datatype PrefetchError =
    | BlobTooLarge(digest: Digest)
    | BadManifest(digest: Digest)
    | MissingBlobs(count: nat)
    | ManifestNotFound(digest: Digest)
    | ZarfYAMLNotFound(package: string)
    | DuplicatePackage(package: string)

  /** Manifest parsing and the capture limit. */
  datatype Reader = Reader(parse: Bytes -> Option<Manifest>, cap: nat)

  datatype State = State(needed: set<Digest>, captured: map<Digest, Bytes>, parsed: map<Digest, Manifest>)

  datatype Signal = Continue | SkipAll | Fail(error: PrefetchError)

  function ManifestDigests(packages: seq<Package>): set<Digest> {
    set i | 0 <= i < |packages| :: packages[i].manifestDigest
  }

  /** The digests a manifest asks for. */
  function MetadataDigests(m: Manifest): set<Digest> {
    set i | 0 <= i < |m.layers| && m.layers[i].IsMetadata() :: m.layers[i].digest
  }

  predicate Finished(packages: seq<Package>, st: State) {
    st.needed == {} && |st.parsed| == |packages|
  }

  /** The streaming handler: one archive entry. */
  function Handle(r: Reader, packages: seq<Package>, st: State, entry: Entry): (State, Signal) {
    if entry.name.Plain? || entry.name.digest !in st.needed then (st, Continue)
    else
      var digest := entry.name.digest;
      var without := st.(needed := st.needed - {digest});
      if |entry.data| > r.cap then (without, Fail(BlobTooLarge(digest)))
      else
        var taken := without.(captured := st.captured[digest := entry.data]);
        if digest !in ManifestDigests(packages) then (taken, if Finished(packages, taken) then SkipAll else Continue)
        else match r.parse(entry.data)
          case None => (taken, Fail(BadManifest(digest)))
          case Some(m) =>
            var learned := taken.(parsed := st.parsed[digest := m],
                                  needed := taken.needed + (MetadataDigests(m) - taken.captured.Keys));
            (learned, if Finished(packages, learned) then SkipAll else Continue)
  }

  /** How a pass over the archive ended: the state, an error if any, and how many entries were read. */
  datatype Pass = Pass(state: State, error: Option<PrefetchError>, read: nat)

  function RunPass(r: Reader, packages: seq<Package>, archive: Archive, st: State, i: nat): Pass
    requires i <= |archive|
    decreases |archive| - i
  {
    if i == |archive| then Pass(st, None, i)
    else
      var (next, signal) := Handle(r, packages, st, archive[i]);
      match signal
      case Continue => RunPass(r, packages, archive, next, i + 1)
      case SkipAll => Pass(next, None, i + 1)
      case Fail(e) => Pass(next, Some(e), i + 1)
  }

  function Initial(packages: seq<Package>): State {
    State(ManifestDigests(packages), map[], map[])
  }

  // Plain lookups, the reference.

  /** The data of the first entry of every blob. */
  function Blobs(archive: Archive): map<Digest, Bytes> {
    if archive == [] then map[]
    else
      var init, last := Blobs(archive[..|archive| - 1]), archive[|archive| - 1];
      if last.name.Blob? && last.name.digest !in init then init[last.name.digest := last.data] else init
  }

  /** Entries of one name hold the same data, as the names are digests of it. */
  ghost predicate Consistent(archive: Archive) {
    forall i, j :: 0 <= i < j < |archive| && archive[i].name == archive[j].name ==> archive[i].data == archive[j].data
  }

  lemma {:induction false} BlobsByIndex(archive: Archive)
    requires Consistent(archive)
    ensures forall i :: 0 <= i < |archive| && archive[i].name.Blob? ==>
              archive[i].name.digest in Blobs(archive) && Blobs(archive)[archive[i].name.digest] == archive[i].data
    ensures forall d :: d in Blobs(archive) ==> exists i :: 0 <= i < |archive| && archive[i].name == Blob(d)
  {
    if archive != [] {
      var init, last := archive[..|archive| - 1], archive[|archive| - 1];
      BlobsByIndex(init);
      forall i | 0 <= i < |archive| && archive[i].name.Blob?
        ensures archive[i].name.digest in Blobs(archive) && Blobs(archive)[archive[i].name.digest] == archive[i].data {
        if i < |init| {
          assert init[i] == archive[i];
        } else if last.name.digest in Blobs(init) {
          var k :| 0 <= k < |init| && init[k].name == Blob(last.name.digest);
          assert archive[k] == init[k] && archive[k].name == archive[i].name;
        }
      }
      forall d | d in Blobs(archive) ensures exists i :: 0 <= i < |archive| && archive[i].name == Blob(d) {
        if d in Blobs(init) {
          var k :| 0 <= k < |init| && init[k].name == Blob(d);
          assert archive[k].name == Blob(d);
        } else {
          assert archive[|archive| - 1].name == Blob(d);
        }
      }
    }
  }

  /** The files of a package directory: the data of every metadata layer under its title, later layers winning. */
  function Directory(layers: seq<Layer>, blobs: map<Digest, Bytes>): map<Title, Bytes> {
    if layers == [] then map[]
    else
      var init, last := Directory(layers[..|layers| - 1], blobs), layers[|layers| - 1];
      if last.IsMetadata() && last.digest in blobs then init[last.title := blobs[last.digest]] else init
  }

  ghost predicate DistinctDigests(packages: seq<Package>) {
    forall i, j :: 0 <= i < j < |packages| ==> packages[i].manifestDigest != packages[j].manifestDigest
  }

  /** Direct lookups find the manifest, it parses, and they find all the metadata it names, zarf.yaml included. */
  ghost predicate PackageFetchable(r: Reader, blobs: map<Digest, Bytes>, d: Digest) {
    && d in blobs && |blobs[d]| <= r.cap && r.parse(blobs[d]).Some?
    && var m := r.parse(blobs[d]).value;
       && (forall x :: x in MetadataDigests(m) ==> x in blobs && |blobs[x]| <= r.cap)
       && exists l :: l in m.layers && l.title == ZarfYAML
  }

  ghost predicate Fetchable(r: Reader, packages: seq<Package>, blobs: map<Digest, Bytes>) {
    && (forall d :: d in ManifestDigests(packages) ==> PackageFetchable(r, blobs, d))
    && (forall i, j :: 0 <= i < j < |packages| ==> packages[i].name != packages[j].name)
  }

  // What the passes keep.

  /** The digests that may ever be wanted: the manifests, and what the captured manifests ask for. */
  ghost predicate Wanted(r: Reader, packages: seq<Package>, st: State, d: Digest) {
    || d in ManifestDigests(packages)
    || exists m :: m in st.parsed && d in MetadataDigests(st.parsed[m])
  }

  ghost predicate AllWanted(r: Reader, packages: seq<Package>, st: State) {
    forall d :: d in st.needed || d in st.captured ==> Wanted(r, packages, st, d)
  }

  ghost predicate Inv(r: Reader, packages: seq<Package>, blobs: map<Digest, Bytes>, st: State) {
    Sound(r, packages, blobs, st) && AllWanted(r, packages, st)
  }

  ghost predicate Sound(r: Reader, packages: seq<Package>, blobs: map<Digest, Bytes>, st: State) {
    && st.needed !! st.captured.Keys
    && (forall d :: d in ManifestDigests(packages) ==> d in st.needed || d in st.captured)
    && (forall d :: d in st.captured ==> d in blobs && st.captured[d] == blobs[d] && |blobs[d]| <= r.cap)
    && st.parsed.Keys == ManifestDigests(packages) * st.captured.Keys
    && (forall m :: m in st.parsed ==> r.parse(blobs[m]) == Some(st.parsed[m]))
    && (forall m :: m in st.parsed ==> MetadataDigests(st.parsed[m]) <= st.needed + st.captured.Keys)
  }

  lemma InitialInv(r: Reader, packages: seq<Package>, blobs: map<Digest, Bytes>)
    ensures Inv(r, packages, blobs, Initial(packages))
  {
  }

  lemma HandleWanted(r: Reader, packages: seq<Package>, blobs: map<Digest, Bytes>, st: State, entry: Entry, d: Digest)
    requires Inv(r, packages, blobs, st) && !Handle(r, packages, st, entry).1.Fail?
    requires d in Handle(r, packages, st, entry).0.needed || d in Handle(r, packages, st, entry).0.captured
    ensures Wanted(r, packages, Handle(r, packages, st, entry).0, d)
  {
    var next := Handle(r, packages, st, entry).0;
    if d in st.needed || d in st.captured {
      if d !in ManifestDigests(packages) {
        var m :| m in st.parsed && d in MetadataDigests(st.parsed[m]);
        assert m in next.parsed && next.parsed[m] == st.parsed[m];
      }
    } else {
      assert entry.name.digest in next.parsed && d in MetadataDigests(next.parsed[entry.name.digest]);
    }
  }

  lemma MetadataSound(r: Reader, packages: seq<Package>, blobs: map<Digest, Bytes>, st: State, digest: Digest)
    requires Sound(r, packages, blobs, st) && digest in st.needed && digest !in ManifestDigests(packages)
    requires digest in blobs && |blobs[digest]| <= r.cap
    ensures Sound(r, packages, blobs, State(st.needed - {digest}, st.captured[digest := blobs[digest]], st.parsed))
  {
  }

  lemma ManifestSound(r: Reader, packages: seq<Package>, blobs: map<Digest, Bytes>, st: State, digest: Digest,
                      m: Manifest)
    requires Sound(r, packages, blobs, st) && digest in st.needed && digest in ManifestDigests(packages)
    requires digest in blobs && |blobs[digest]| <= r.cap && r.parse(blobs[digest]) == Some(m)
    ensures var captured := st.captured[digest := blobs[digest]];
            var needed := st.needed - {digest} + (MetadataDigests(m) - captured.Keys);
            Sound(r, packages, blobs, State(needed, captured, st.parsed[digest := m]))
  {
    assert digest !in st.parsed;
  }

  lemma HandleSound(r: Reader, packages: seq<Package>, blobs: map<Digest, Bytes>, st: State, entry: Entry)
    requires Sound(r, packages, blobs, st)
    requires entry.name.Blob? ==> entry.name.digest in blobs && blobs[entry.name.digest] == entry.data
    requires !Handle(r, packages, st, entry).1.Fail?
    ensures Sound(r, packages, blobs, Handle(r, packages, st, entry).0)
  {
    if entry.name.Blob? && entry.name.digest in st.needed {
      var digest := entry.name.digest;
      if digest in ManifestDigests(packages) {
        ManifestSound(r, packages, blobs, st, digest, r.parse(entry.data).value);
      } else {
        MetadataSound(r, packages, blobs, st, digest);
      }
    }
  }

  lemma HandleInv(r: Reader, packages: seq<Package>, blobs: map<Digest, Bytes>, st: State, entry: Entry)
    requires Inv(r, packages, blobs, st)
    requires entry.name.Blob? ==> entry.name.digest in blobs && blobs[entry.name.digest] == entry.data
    requires !Handle(r, packages, st, entry).1.Fail?
    ensures Inv(r, packages, blobs, Handle(r, packages, st, entry).0)
  {
    HandleSound(r, packages, blobs, st, entry);
    var next := Handle(r, packages, st, entry).0;
    forall d | d in next.needed || d in next.captured ensures Wanted(r, packages, next, d) {
      HandleWanted(r, packages, blobs, st, entry, d);
    }
  }

  /** A failing entry shows that direct lookups would not do either. */
  lemma HandleFailure(r: Reader, packages: seq<Package>, blobs: map<Digest, Bytes>, st: State, entry: Entry)
    requires Inv(r, packages, blobs, st)
    requires entry.name.Blob? ==> entry.name.digest in blobs && blobs[entry.name.digest] == entry.data
    requires Handle(r, packages, st, entry).1.Fail?
    ensures !Fetchable(r, packages, blobs)
  {
    var digest := entry.name.digest;
    assert Wanted(r, packages, st, digest);
    if digest !in ManifestDigests(packages) {
      var m :| m in st.parsed && digest in MetadataDigests(st.parsed[m]);
      assert m in ManifestDigests(packages);
    }
  }

  /** Nothing once captured is lost, and what was needed is captured when its entry comes by. */
  lemma HandleProgress(r: Reader, packages: seq<Package>, blobs: map<Digest, Bytes>, st: State, entry: Entry)
    requires Inv(r, packages, blobs, st) && !Handle(r, packages, st, entry).1.Fail?
    ensures var next := Handle(r, packages, st, entry).0;
            && st.captured.Keys <= next.captured.Keys
            && st.needed - next.needed <= next.captured.Keys
            && (entry.name.Blob? && entry.name.digest in st.needed + st.captured.Keys ==>
                  entry.name.digest in next.captured)
  {
  }

  ghost predicate OccursFrom(archive: Archive, i: nat, d: Digest) {
    exists k :: i <= k < |archive| && archive[k].name == Blob(d)
  }

  ghost predicate MatchesBlobs(archive: Archive, blobs: map<Digest, Bytes>) {
    forall i :: 0 <= i < |archive| && archive[i].name.Blob? ==>
      archive[i].name.digest in blobs && blobs[archive[i].name.digest] == archive[i].data
  }

  /** What a pass may do to the state it started from. */
  ghost predicate PassResult(r: Reader, packages: seq<Package>, archive: Archive, blobs: map<Digest, Bytes>,
                             st: State, i: nat, p: Pass)
  {
    && i <= p.read <= |archive|
    && (p.error.Some? ==> !Fetchable(r, packages, blobs))
    && (p.error.None? ==>
          && Inv(r, packages, blobs, p.state) && st.captured.Keys <= p.state.captured.Keys
          && forall d :: d in st.needed && OccursFrom(archive, i, d) ==> d in p.state.captured)
  }

  /** The effect of one entry and of the rest of the pass together. */
  lemma PassResultStep(r: Reader, packages: seq<Package>, archive: Archive, blobs: map<Digest, Bytes>,
                       st: State, next: State, i: nat, p: Pass)
    requires i < |archive| && PassResult(r, packages, archive, blobs, next, i + 1, p)
    requires st.captured.Keys <= next.captured.Keys && st.needed - next.needed <= next.captured.Keys
    requires forall d :: d in st.needed && archive[i].name == Blob(d) ==> d in next.captured
    ensures PassResult(r, packages, archive, blobs, st, i, p)
  {
    forall d | p.error.None? && d in st.needed && OccursFrom(archive, i, d) ensures d in p.state.captured {
      if d !in next.captured {
        var k :| i <= k < |archive| && archive[k].name == Blob(d);
        assert k != i;
        assert OccursFrom(archive, i + 1, d);
      }
    }
  }

  lemma SkipResult(r: Reader, packages: seq<Package>, archive: Archive, blobs: map<Digest, Bytes>,
                   st: State, next: State, i: nat)
    requires i < |archive| && Inv(r, packages, blobs, next) && next.needed == {}
    requires st.captured.Keys <= next.captured.Keys && st.needed - next.needed <= next.captured.Keys
    ensures PassResult(r, packages, archive, blobs, st, i, Pass(next, None, i + 1))
  {
    assert st.needed - next.needed == st.needed;
  }

  /** One entry on its own: the pass it ends, or the state it hands on. */
  lemma EntryKeeps(r: Reader, packages: seq<Package>, archive: Archive, blobs: map<Digest, Bytes>, st: State, i: nat)
    requires i < |archive| && Inv(r, packages, blobs, st) && MatchesBlobs(archive, blobs)
    ensures var (next, signal) := Handle(r, packages, st, archive[i]);
            match signal
            case Fail(e) => PassResult(r, packages, archive, blobs, st, i, Pass(next, Some(e), i + 1))
            case SkipAll => PassResult(r, packages, archive, blobs, st, i, Pass(next, None, i + 1))
            case Continue =>
              && Inv(r, packages, blobs, next)
              && st.captured.Keys <= next.captured.Keys && st.needed - next.needed <= next.captured.Keys
              && (forall d :: d in st.needed && archive[i].name == Blob(d) ==> d in next.captured)
  {
    var (next, signal) := Handle(r, packages, st, archive[i]);
    if signal.Fail? {
      HandleFailure(r, packages, blobs, st, archive[i]);
    } else {
      HandleInv(r, packages, blobs, st, archive[i]);
      HandleProgress(r, packages, blobs, st, archive[i]);
      if signal.SkipAll? {
        SkipResult(r, packages, archive, blobs, st, next, i);
      }
    }
  }

  /** A pass keeps the invariant, fails only when lookups would, and captures whatever was needed at its start and
      still comes by. */
  lemma {:induction false} PassKeeps(r: Reader, packages: seq<Package>, archive: Archive, blobs: map<Digest, Bytes>,
                                     st: State, i: nat)
    requires i <= |archive| && Inv(r, packages, blobs, st) && MatchesBlobs(archive, blobs)
    ensures PassResult(r, packages, archive, blobs, st, i, RunPass(r, packages, archive, st, i))
    decreases |archive| - i
  {
    if i < |archive| {
      var (next, signal) := Handle(r, packages, st, archive[i]);
      EntryKeeps(r, packages, archive, blobs, st, i);
      if signal.Continue? {
        PassKeeps(r, packages, archive, blobs, next, i + 1);
        PassResultStep(r, packages, archive, blobs, st, next, i, RunPass(r, packages, archive, next, i + 1));
      }
    }
  }

  /** Once every manifest is captured, a pass only shrinks needed. */
  lemma {:induction false} LaterPassShrinks(r: Reader, packages: seq<Package>, archive: Archive,
                                            blobs: map<Digest, Bytes>, st: State, i: nat)
    requires i <= |archive| && Inv(r, packages, blobs, st) && MatchesBlobs(archive, blobs)
    requires ManifestDigests(packages) <= st.captured.Keys
    ensures RunPass(r, packages, archive, st, i).error.None? ==>
              RunPass(r, packages, archive, st, i).state.needed <= st.needed
    decreases |archive| - i
  {
    if i < |archive| {
      var (next, signal) := Handle(r, packages, st, archive[i]);
      if !signal.Fail? {
        HandleInv(r, packages, blobs, st, archive[i]);
        HandleProgress(r, packages, blobs, st, archive[i]);
        if signal.Continue? {
          LaterPassShrinks(r, packages, archive, blobs, next, i + 1);
        }
      }
    }
  }

  // The whole prefetch.

  /** One directory per package name, for the first k packages, from what was captured. */
  function ResolveTo(packages: seq<Package>, st: State, k: nat): Result<map<string, map<Title, Bytes>>, PrefetchError>
    requires k <= |packages|
  {
    if k == 0 then Ok(map[])
    else
      var before, e := ResolveTo(packages, st, k - 1), packages[k - 1];
      if before.Err? then before
      else if e.manifestDigest !in st.parsed then Err(ManifestNotFound(e.manifestDigest))
      else
        var directory := Directory(st.parsed[e.manifestDigest].layers, st.captured);
        if ZarfYAML !in directory then Err(ZarfYAMLNotFound(e.name))
        else if e.name in before.value then Err(DuplicatePackage(e.name))
        else Ok(before.value[e.name := directory])
  }

  function Resolve(packages: seq<Package>, st: State): Result<map<string, map<Title, Bytes>>, PrefetchError> {
    ResolveTo(packages, st, |packages|)
  }

  /** The second pass is made when every manifest is known but metadata went by too early. */
  function SecondPass(r: Reader, packages: seq<Package>, archive: Archive, st: State): Pass {
    if st.needed != {} && |st.parsed| == |packages| then RunPass(r, packages, archive, st, 0) else Pass(st, None, 0)
  }

  function Prefetched(r: Reader, packages: seq<Package>, archive: Archive)
    : Result<map<string, map<Title, Bytes>>, PrefetchError>
  {
    var first := RunPass(r, packages, archive, Initial(packages), 0);
    if first.error.Some? then Err(first.error.value)
    else
      var second := SecondPass(r, packages, archive, first.state);
      if second.error.Some? then Err(second.error.value)
      else if second.state.needed != {} && |second.state.parsed| == |packages| then
        Err(MissingBlobs(|second.state.needed|))
      else Resolve(packages, second.state)
  }

  /** The variables the streaming handler captures. */
  class Prefetcher {
    const r: Reader
    const packages: seq<Package>
    const isPackageManifest: set<Digest>
    var needed: set<Digest>
    var captured: map<Digest, Bytes>
    var parsedManifests: map<Digest, Manifest>

    function Snapshot(): State
      reads this
    {
      State(needed, captured, parsedManifests)
    }

    ghost predicate Valid() {
      isPackageManifest == ManifestDigests(packages)
    }

    constructor (r: Reader, packages: seq<Package>)
      ensures Valid() && this.r == r && this.packages == packages && Snapshot() == Initial(packages)
    {
      this.r, this.packages := r, packages;
      needed := ManifestDigests(packages);
      isPackageManifest := ManifestDigests(packages);
      captured, parsedManifests := map[], map[];
    }

    method Handler(entry: Entry) returns (signal: Signal)
      requires Valid()
      modifies this
      ensures (Snapshot(), signal) == Handle(r, packages, old(Snapshot()), entry)
    {
      if entry.name.Plain? || entry.name.digest !in needed {
        return Continue;
      }
      var digest := entry.name.digest;
      needed := needed - {digest};
      if |entry.data| > r.cap {
        return Fail(BlobTooLarge(digest));
      }
      captured := captured[digest := entry.data];
      if digest in isPackageManifest {
        var manifest := r.parse(entry.data);
        if manifest.None? {
          return Fail(BadManifest(digest));
        }
        parsedManifests := parsedManifests[digest := manifest.value];
        ghost var before := needed;
        var layers := manifest.value.layers;
        for i := 0 to |layers|
          invariant needed ==
                    before + ((set k | 0 <= k < i && layers[k].IsMetadata() :: layers[k].digest) - captured.Keys)
          invariant captured == old(captured)[digest := entry.data]
          invariant parsedManifests == old(parsedManifests)[digest := manifest.value]
        {
          if layers[i].IsMetadata() && layers[i].digest !in captured {
            needed := needed + {layers[i].digest};
          }
        }
      }
      if needed == {} && |parsedManifests| == |packages| {
        return SkipAll;
      }
      return Continue;
    }

    method Run(archive: Archive) returns (error: Option<PrefetchError>, read: nat)
      requires Valid()
      modifies this
      ensures Pass(Snapshot(), error, read) == RunPass(r, packages, archive, old(Snapshot()), 0)
    {
      for i := 0 to |archive|
        invariant RunPass(r, packages, archive, old(Snapshot()), 0) == RunPass(r, packages, archive, Snapshot(), i)
      {
        var signal := Handler(archive[i]);
        match signal {
          case Continue =>
          case SkipAll => return None, i + 1;
          case Fail(e) => return Some(e), i + 1;
        }
      }
      return None, |archive|;
    }

    method WriteDirectory(manifest: Manifest) returns (directory: map<Title, Bytes>)
      ensures directory == Directory(manifest.layers, captured)
    {
      directory := map[];
      var layers := manifest.layers;
      for i := 0 to |layers|
        invariant directory == Directory(layers[..i], captured)
      {
        assert layers[..i + 1][..i] == layers[..i];
        if layers[i].digest !in captured {
          continue;
        }
        if !layers[i].IsMetadata() {
          continue;
        }
        directory := directory[layers[i].title := captured[layers[i].digest]];
      }
      assert layers[..|layers|] == layers;
    }

    method ResolveAll() returns (result: Result<map<string, map<Title, Bytes>>, PrefetchError>)
      ensures result == Resolve(packages, Snapshot())
    {
      var results: map<string, map<Title, Bytes>> := map[];
      for i := 0 to |packages|
        invariant ResolveTo(packages, Snapshot(), i) == Ok(results)
      {
        var e := packages[i];
        if e.manifestDigest !in parsedManifests {
          ResolveFirstError(packages, Snapshot(), i + 1, |packages|);
          return Err(ManifestNotFound(e.manifestDigest));
        }
        var directory := WriteDirectory(parsedManifests[e.manifestDigest]);
        if ZarfYAML !in directory {
          ResolveFirstError(packages, Snapshot(), i + 1, |packages|);
          return Err(ZarfYAMLNotFound(e.name));
        }
        if e.name in results {
          ResolveFirstError(packages, Snapshot(), i + 1, |packages|);
          return Err(DuplicatePackage(e.name));
        }
        results := results[e.name := directory];
      }
      return Ok(results);
    }
  }

  method PrefetchPackageMetadata(r: Reader, packages: seq<Package>, archive: Archive)
    returns (result: Result<map<string, map<Title, Bytes>>, PrefetchError>)
    ensures result == Prefetched(r, packages, archive)
  {
    var p := new Prefetcher(r, packages);
    var error, read := p.Run(archive);
    if error.Some? {
      return Err(error.value);
    }
    if |p.needed| > 0 && |p.parsedManifests| == |packages| {
      error, read := p.Run(archive);
      if error.Some? {
        return Err(error.value);
      }
    }
    if |p.needed| > 0 && |p.parsedManifests| == |packages| {
      return Err(MissingBlobs(|p.needed|));
    }
    result := p.ResolveAll();
  }

  lemma {:induction false} ResolveFirstError(packages: seq<Package>, st: State, k: nat, n: nat)
    requires k <= n <= |packages| && ResolveTo(packages, st, k).Err?
    ensures ResolveTo(packages, st, n) == ResolveTo(packages, st, k)
  {
    if k < n {
      ResolveFirstError(packages, st, k, n - 1);
    }
  }

  // Agreement with plain lookups.

  lemma DistinctCount(packages: seq<Package>)
    requires DistinctDigests(packages)
    ensures |ManifestDigests(packages)| == |packages|
  {
    var digests := seq(|packages|, i requires 0 <= i < |packages| => packages[i].manifestDigest);
    assert NoDuplicates(digests);
    NoDuplicatesCardinality(digests);
    forall d ensures d in Elements(digests) <==> d in ManifestDigests(packages) {
      if d in ManifestDigests(packages) {
        var i :| 0 <= i < |packages| && packages[i].manifestDigest == d;
        assert digests[i] == d;
      }
    }
    assert Elements(digests) == ManifestDigests(packages);
  }

  /** With distinct digests, counting the parsed manifests tells whether all are captured. */
  lemma AllParsed(r: Reader, packages: seq<Package>, blobs: map<Digest, Bytes>, st: State)
    requires DistinctDigests(packages) && Inv(r, packages, blobs, st)
    ensures |st.parsed| == |packages| <==> ManifestDigests(packages) <= st.captured.Keys
    ensures |st.parsed| == |packages| ==> st.parsed.Keys == ManifestDigests(packages)
  {
    DistinctCount(packages);
    assert |st.parsed| == |st.parsed.Keys|;
    SubsetCardinality(st.parsed.Keys, ManifestDigests(packages));
    if ManifestDigests(packages) <= st.captured.Keys {
      assert ManifestDigests(packages) * st.captured.Keys == ManifestDigests(packages);
    }
  }

  /** After the first pass over a consistent archive, either some manifest is in no entry at all, or every manifest is
      captured and the second pass leaves needed only what is in no entry. */
  lemma TwoPassesSuffice(r: Reader, packages: seq<Package>, archive: Archive)
    requires DistinctDigests(packages) && Consistent(archive)
    ensures var blobs := Blobs(archive);
            var first := RunPass(r, packages, archive, Initial(packages), 0);
            && (first.error.Some? ==> !Fetchable(r, packages, blobs))
            && (first.error.None? ==>
                  && Inv(r, packages, blobs, first.state)
                  && (|first.state.parsed| != |packages| ==> !(ManifestDigests(packages) <= blobs.Keys))
                  && var second := SecondPass(r, packages, archive, first.state);
                     && (second.error.Some? ==> !Fetchable(r, packages, blobs))
                     && (second.error.None? ==> Inv(r, packages, blobs, second.state))
                     && (second.error.None? ==>
                           (|first.state.parsed| == |packages| <==> |second.state.parsed| == |packages|))
                     && (second.error.None? && |first.state.parsed| == |packages| ==>
                           second.state.needed !! blobs.Keys))
  {
    var blobs := Blobs(archive);
    BlobsByIndex(archive);
    InitialInv(r, packages, blobs);
    PassKeeps(r, packages, archive, blobs, Initial(packages), 0);
    var first := RunPass(r, packages, archive, Initial(packages), 0);
    if first.error.None? {
      AllParsed(r, packages, blobs, first.state);
      forall d | d in ManifestDigests(packages) && d in blobs ensures d in first.state.captured {
        assert OccursFrom(archive, 0, d);
      }
      SecondPassOutcome(r, packages, archive, blobs, first.state);
    }
  }

  lemma SecondPassOutcome(r: Reader, packages: seq<Package>, archive: Archive, blobs: map<Digest, Bytes>, st: State)
    requires DistinctDigests(packages) && Inv(r, packages, blobs, st) && MatchesBlobs(archive, blobs)
    requires forall d :: d in blobs ==> exists i :: 0 <= i < |archive| && archive[i].name == Blob(d)
    ensures var second := SecondPass(r, packages, archive, st);
            && (second.error.Some? ==> !Fetchable(r, packages, blobs))
            && (second.error.None? ==> Inv(r, packages, blobs, second.state))
            && (second.error.None? ==> (|st.parsed| == |packages| <==> |second.state.parsed| == |packages|))
            && (second.error.None? && |st.parsed| == |packages| ==> second.state.needed !! blobs.Keys)
  {
    AllParsed(r, packages, blobs, st);
    if st.needed != {} && |st.parsed| == |packages| {
      PassKeeps(r, packages, archive, blobs, st, 0);
      LaterPassShrinks(r, packages, archive, blobs, st, 0);
      var second := RunPass(r, packages, archive, st, 0);
      if second.error.None? {
        AllParsed(r, packages, blobs, second.state);
        forall d | d in second.state.needed ensures d !in blobs {
          if d in blobs {
            assert OccursFrom(archive, 0, d);
          }
        }
      }
    }
  }

  /** A directory filled from captured data is the one direct lookups give, once everything named is captured. */
  lemma {:induction false} SameDirectory(layers: seq<Layer>, captured: map<Digest, Bytes>, blobs: map<Digest, Bytes>)
    requires forall d :: d in captured ==> d in blobs && captured[d] == blobs[d]
    requires forall l :: l in layers && l.IsMetadata() ==> l.digest in captured
    ensures Directory(layers, captured) == Directory(layers, blobs)
  {
    if layers != [] {
      SameDirectory(layers[..|layers| - 1], captured, blobs);
    }
  }

  lemma {:induction false} DirectoryHasZarfYAML(layers: seq<Layer>, blobs: map<Digest, Bytes>)
    requires forall l :: l in layers && l.IsMetadata() ==> l.digest in blobs
    ensures ZarfYAML in Directory(layers, blobs) <==> exists l :: l in layers && l.title == ZarfYAML
  {
    if layers != [] {
      var init, last := layers[..|layers| - 1], layers[|layers| - 1];
      DirectoryHasZarfYAML(init, blobs);
      assert layers == init + [last];
      if l :| l in layers && l.title == ZarfYAML {
        assert l in init || l == last;
      }
      if l :| l in init && l.title == ZarfYAML {
        assert l in layers;
      }
      assert last in layers;
    }
  }

  /** Where a title occurs once, the file is the blob of that layer. */
  lemma {:induction false} DirectoryFile(layers: seq<Layer>, blobs: map<Digest, Bytes>, k: nat)
    requires k < |layers| && layers[k].IsMetadata() && layers[k].digest in blobs
    requires forall i :: 0 <= i < |layers| && i != k ==> layers[i].title != layers[k].title
    ensures layers[k].title in Directory(layers, blobs)
    ensures Directory(layers, blobs)[layers[k].title] == blobs[layers[k].digest]
  {
    if k < |layers| - 1 {
      DirectoryFile(layers[..|layers| - 1], blobs, k);
    }
  }

  /** The directory direct lookups give for a manifest digest. */
  function LookupDirectory(r: Reader, blobs: map<Digest, Bytes>, d: Digest): map<Title, Bytes> {
    if d in blobs && r.parse(blobs[d]).Some? then Directory(r.parse(blobs[d]).value.layers, blobs) else map[]
  }

  /** What direct lookups give for the first k packages: one directory each. */
  ghost predicate LookedUp(r: Reader, packages: seq<Package>, blobs: map<Digest, Bytes>, k: nat,
                           results: map<string, map<Title, Bytes>>)
    requires k <= |packages|
  {
    && (forall n :: n in results <==> exists i :: 0 <= i < k && packages[i].name == n)
    && forall i :: 0 <= i < k ==>
         && packages[i].name in results
         && results[packages[i].name] == LookupDirectory(r, blobs, packages[i].manifestDigest)
  }

  /** All manifests and all the metadata they name are captured. */
  ghost predicate Complete(r: Reader, packages: seq<Package>, blobs: map<Digest, Bytes>, st: State) {
    && Inv(r, packages, blobs, st) && st.needed == {} && ManifestDigests(packages) <= st.captured.Keys
  }

  /** Resolving treats a manifest as lookups do. */
  ghost predicate Agrees(r: Reader, blobs: map<Digest, Bytes>, st: State, d: Digest) {
    if d in st.parsed then Directory(st.parsed[d].layers, st.captured) == LookupDirectory(r, blobs, d)
    else !Usable(r, blobs, d)
  }

  /** Lookups find a manifest and a zarf.yaml for it. */
  ghost predicate Usable(r: Reader, blobs: map<Digest, Bytes>, d: Digest) {
    ZarfYAML in LookupDirectory(r, blobs, d)
  }

  lemma CompleteAgrees(r: Reader, packages: seq<Package>, blobs: map<Digest, Bytes>, st: State, d: Digest)
    requires Complete(r, packages, blobs, st) && d in ManifestDigests(packages)
    ensures Agrees(r, blobs, st, d) && (Usable(r, blobs, d) <==> PackageFetchable(r, blobs, d))
  {
    assert d in st.parsed && r.parse(blobs[d]) == Some(st.parsed[d]);
    var layers := st.parsed[d].layers;
    forall l | l in layers && l.IsMetadata() ensures l.digest in st.captured {
      assert l.digest in MetadataDigests(st.parsed[d]);
    }
    SameDirectory(layers, st.captured, blobs);
    DirectoryHasZarfYAML(layers, blobs);
    assert MetadataDigests(st.parsed[d]) <= st.captured.Keys;
  }

  ghost predicate DistinctNames(packages: seq<Package>, k: nat)
    requires k <= |packages|
  {
    forall i, j :: 0 <= i < j < k ==> packages[i].name != packages[j].name
  }

  ghost predicate UsableUpTo(r: Reader, packages: seq<Package>, blobs: map<Digest, Bytes>, k: nat)
    requires k <= |packages|
  {
    (forall i :: 0 <= i < k ==> Usable(r, blobs, packages[i].manifestDigest)) && DistinctNames(packages, k)
  }

  lemma NewName(r: Reader, packages: seq<Package>, blobs: map<Digest, Bytes>, k: nat,
                before: map<string, map<Title, Bytes>>)
    requires 0 < k <= |packages| && LookedUp(r, packages, blobs, k - 1, before)
    ensures DistinctNames(packages, k) <==> DistinctNames(packages, k - 1) && packages[k - 1].name !in before
  {
  }

  /** Resolving succeeds exactly when lookups do, with what lookups give. */
  lemma {:induction false} ResolveAgrees(r: Reader, packages: seq<Package>, blobs: map<Digest, Bytes>, st: State,
                                         k: nat)
    requires k <= |packages| && forall i :: 0 <= i < |packages| ==> Agrees(r, blobs, st, packages[i].manifestDigest)
    ensures ResolveTo(packages, st, k).Ok? <==> UsableUpTo(r, packages, blobs, k)
    ensures ResolveTo(packages, st, k).Ok? ==> LookedUp(r, packages, blobs, k, ResolveTo(packages, st, k).value)
  {
    if k > 0 {
      ResolveAgrees(r, packages, blobs, st, k - 1);
      var before, d := ResolveTo(packages, st, k - 1), packages[k - 1].manifestDigest;
      assert Agrees(r, blobs, st, d);
      if before.Ok? {
        NewName(r, packages, blobs, k, before.value);
        if ResolveTo(packages, st, k).Ok? {
          LookedUpOneMore(r, packages, blobs, k, before.value, LookupDirectory(r, blobs, d));
        }
      }
    }
  }

  lemma LookedUpOneMore(r: Reader, packages: seq<Package>, blobs: map<Digest, Bytes>, k: nat,
                        before: map<string, map<Title, Bytes>>, directory: map<Title, Bytes>)
    requires 0 < k <= |packages| && LookedUp(r, packages, blobs, k - 1, before) && packages[k - 1].name !in before
    requires directory == LookupDirectory(r, blobs, packages[k - 1].manifestDigest)
    ensures LookedUp(r, packages, blobs, k, before[packages[k - 1].name := directory])
  {
    var results := before[packages[k - 1].name := directory];
    forall n ensures n in results <==> exists i :: 0 <= i < k && packages[i].name == n {
      if n in before {
        var i :| 0 <= i < k - 1 && packages[i].name == n;
      }
    }
  }

  /** The prefetch succeeds exactly when direct lookups of every manifest and metadata blob succeed, in whatever order
      the archive holds them, and then yields exactly the bytes the lookups yield. */
  lemma PrefetchIsLookup(r: Reader, packages: seq<Package>, archive: Archive)
    requires DistinctDigests(packages) && Consistent(archive)
    ensures Prefetched(r, packages, archive).Ok? <==> Fetchable(r, packages, Blobs(archive))
    ensures Prefetched(r, packages, archive).Ok? ==>
              LookedUp(r, packages, Blobs(archive), |packages|, Prefetched(r, packages, archive).value)
  {
    var blobs := Blobs(archive);
    TwoPassesSuffice(r, packages, archive);
    var first := RunPass(r, packages, archive, Initial(packages), 0);
    if first.error.None? {
      var second := SecondPass(r, packages, archive, first.state);
      if second.error.None? {
        FinalState(r, packages, blobs, first.state, second.state);
      }
    }
  }

  lemma FinalState(r: Reader, packages: seq<Package>, blobs: map<Digest, Bytes>, first: State, st: State)
    requires DistinctDigests(packages) && Inv(r, packages, blobs, st)
    requires |first.parsed| == |packages| <==> |st.parsed| == |packages|
    requires |first.parsed| != |packages| ==> !(ManifestDigests(packages) <= blobs.Keys)
    requires |first.parsed| == |packages| ==> st.needed !! blobs.Keys
    ensures st.needed != {} && |st.parsed| == |packages| ==> !Fetchable(r, packages, blobs)
    ensures !(st.needed != {} && |st.parsed| == |packages|) ==>
              && (Resolve(packages, st).Ok? <==> Fetchable(r, packages, blobs))
              && (Resolve(packages, st).Ok? ==> LookedUp(r, packages, blobs, |packages|, Resolve(packages, st).value))
  {
    AllParsed(r, packages, blobs, st);
    if |st.parsed| != |packages| {
      MissingManifest(r, packages, blobs, st);
    } else if st.needed != {} {
      var d :| d in st.needed;
      assert Wanted(r, packages, st, d);
      var m :| m in st.parsed && d in MetadataDigests(st.parsed[m]);
      assert !PackageFetchable(r, blobs, m);
    } else {
      CompleteResolves(r, packages, blobs, st);
    }
  }

  /** From complete captures, resolving succeeds exactly when lookups do. */
  lemma CompleteResolves(r: Reader, packages: seq<Package>, blobs: map<Digest, Bytes>, st: State)
    requires Complete(r, packages, blobs, st)
    ensures Resolve(packages, st).Ok? <==> Fetchable(r, packages, blobs)
    ensures Resolve(packages, st).Ok? ==> LookedUp(r, packages, blobs, |packages|, Resolve(packages, st).value)
  {
    forall i | 0 <= i < |packages|
      ensures Agrees(r, blobs, st, packages[i].manifestDigest)
      ensures Usable(r, blobs, packages[i].manifestDigest) <==> PackageFetchable(r, blobs, packages[i].manifestDigest) {
      assert packages[i].manifestDigest in ManifestDigests(packages);
      CompleteAgrees(r, packages, blobs, st, packages[i].manifestDigest);
    }
    ResolveAgrees(r, packages, blobs, st, |packages|);
    FetchableByIndex(r, packages, blobs);
  }

  lemma FetchableByIndex(r: Reader, packages: seq<Package>, blobs: map<Digest, Bytes>)
    ensures Fetchable(r, packages, blobs) <==>
            && (forall i :: 0 <= i < |packages| ==> PackageFetchable(r, blobs, packages[i].manifestDigest))
            && DistinctNames(packages, |packages|)
  {
    if Fetchable(r, packages, blobs) {
      forall i | 0 <= i < |packages| ensures PackageFetchable(r, blobs, packages[i].manifestDigest) {
        assert packages[i].manifestDigest in ManifestDigests(packages);
      }
    }
  }

  /** A manifest that was never found makes resolving fail, as it makes lookups fail. */
  lemma MissingManifest(r: Reader, packages: seq<Package>, blobs: map<Digest, Bytes>, st: State)
    requires DistinctDigests(packages) && Inv(r, packages, blobs, st) && |st.parsed| != |packages|
    requires !(ManifestDigests(packages) <= blobs.Keys)
    ensures Resolve(packages, st).Err? && !Fetchable(r, packages, blobs)
  {
    AllParsed(r, packages, blobs, st);
    var d :| d in ManifestDigests(packages) && d !in st.captured.Keys;
    var i :| 0 <= i < |packages| && packages[i].manifestDigest == d;
    ResolveMisses(packages, st, i, |packages|);
    var x :| x in ManifestDigests(packages) && x !in blobs;
    assert !PackageFetchable(r, blobs, x);
  }

  lemma {:induction false} ResolveMisses(packages: seq<Package>, st: State, i: nat, k: nat)
    requires i < k <= |packages| && packages[i].manifestDigest !in st.parsed
    ensures ResolveTo(packages, st, k).Err?
  {
    if i < k - 1 {
      ResolveMisses(packages, st, i, k - 1);
    }
  }

  // Archives that put metadata first.

  /** Within the first length entries, every manifest comes before all the metadata it names. */
  ghost predicate PrefixReady(r: Reader, packages: seq<Package>, archive: Archive, length: nat) {
    length <= |archive| &&
    forall i :: 0 <= i < |archive| && archive[i].name.Blob? && archive[i].name.digest in ManifestDigests(packages) ==>
      && i < length
      && (r.parse(archive[i].data).Some? ==> MetadataWithin(archive, r.parse(archive[i].data).value, i, length))
  }

  ghost predicate MetadataWithin(archive: Archive, m: Manifest, i: nat, length: nat) {
    forall j :: 0 <= j < |archive| && archive[j].name.Blob? && archive[j].name.digest in MetadataDigests(m) ==>
      i < j < length
  }

  /** Nothing that is still needed has gone by. */
  ghost predicate NothingBehind(archive: Archive, st: State, i: nat) {
    forall k :: 0 <= k < |archive| && archive[k].name.Blob? && archive[k].name.digest in st.needed ==> i <= k
  }

  lemma HandleNothingBehind(r: Reader, packages: seq<Package>, archive: Archive, st: State, i: nat, length: nat)
    requires i < |archive| && NothingBehind(archive, st, i) && PrefixReady(r, packages, archive, length)
    requires !Handle(r, packages, st, archive[i]).1.Fail?
    requires forall k :: 0 <= k < |archive| && k != i ==> archive[k].name != archive[i].name
    ensures NothingBehind(archive, Handle(r, packages, st, archive[i]).0, i + 1)
  {
    var next := Handle(r, packages, st, archive[i]).0;
    forall k | 0 <= k < |archive| && archive[k].name.Blob? && archive[k].name.digest in next.needed ensures i + 1 <= k {
      if archive[k].name.digest !in st.needed {
        assert MetadataWithin(archive, r.parse(archive[i].data).value, i, length);
      }
    }
  }

  /** The archive holds everything, each entry once, with a ready prefix. */
  ghost predicate FastArchive(r: Reader, packages: seq<Package>, archive: Archive, blobs: map<Digest, Bytes>,
                              length: nat)
  {
    && Fetchable(r, packages, blobs) && DistinctDigests(packages)
    && MatchesBlobs(archive, blobs) && (forall d :: d in blobs ==> OccursFrom(archive, 0, d))
    && (forall k, l :: 0 <= k < |archive| && 0 <= l < |archive| && k != l ==> archive[k].name != archive[l].name)
    && PrefixReady(r, packages, archive, length)
  }

  ghost predicate StandsWithin(archive: Archive, d: Digest, length: nat) {
    exists k :: 0 <= k < |archive| && archive[k].name == Blob(d) && k < length
  }

  lemma ManifestStandsWithin(r: Reader, packages: seq<Package>, archive: Archive, blobs: map<Digest, Bytes>,
                             length: nat, m: Digest) returns (i: nat)
    requires FastArchive(r, packages, archive, blobs, length) && m in ManifestDigests(packages)
    ensures i < |archive| && archive[i].name == Blob(m) && i < length && StandsWithin(archive, m, length)
    ensures m in blobs && r.parse(blobs[m]).Some? && MetadataWithin(archive, r.parse(blobs[m]).value, i, length)
    ensures forall x :: x in MetadataDigests(r.parse(blobs[m]).value) ==> OccursFrom(archive, 0, x)
  {
    assert PackageFetchable(r, blobs, m);
    assert OccursFrom(archive, 0, m);
    i :| 0 <= i < |archive| && archive[i].name == Blob(m);
  }

  lemma WantedStandsWithin(r: Reader, packages: seq<Package>, archive: Archive, blobs: map<Digest, Bytes>,
                           st: State, length: nat, d: Digest)
    requires FastArchive(r, packages, archive, blobs, length) && Inv(r, packages, blobs, st)
    requires Wanted(r, packages, st, d)
    ensures StandsWithin(archive, d, length)
  {
    if d in ManifestDigests(packages) {
      var i := ManifestStandsWithin(r, packages, archive, blobs, length, d);
    } else {
      var m :| m in st.parsed && d in MetadataDigests(st.parsed[m]);
      var i := ManifestStandsWithin(r, packages, archive, blobs, length, m);
      assert r.parse(blobs[m]) == Some(st.parsed[m]);
      var j :| 0 <= j < |archive| && archive[j].name == Blob(d);
    }
  }

  /** At the end of the prefix nothing can be needed any more. */
  lemma NothingNeededBehindPrefix(r: Reader, packages: seq<Package>, archive: Archive, blobs: map<Digest, Bytes>,
                                  st: State, length: nat)
    requires FastArchive(r, packages, archive, blobs, length) && Inv(r, packages, blobs, st)
    requires NothingBehind(archive, st, length)
    ensures Finished(packages, st)
  {
    forall d | Wanted(r, packages, st, d) ensures d !in st.needed {
      WantedStandsWithin(r, packages, archive, blobs, st, length, d);
    }
    assert st.needed == {};
    AllParsed(r, packages, blobs, st);
  }

  lemma PrefixStep(r: Reader, packages: seq<Package>, archive: Archive, blobs: map<Digest, Bytes>,
                   st: State, i: nat, length: nat)
    requires FastArchive(r, packages, archive, blobs, length) && Inv(r, packages, blobs, st)
    requires NothingBehind(archive, st, i) && i < length
    ensures var (next, signal) := Handle(r, packages, st, archive[i]);
            !signal.Fail? && Inv(r, packages, blobs, next) && NothingBehind(archive, next, i + 1)
  {
    if Handle(r, packages, st, archive[i]).1.Fail? {
      HandleFailure(r, packages, blobs, st, archive[i]);
    } else {
      HandleInv(r, packages, blobs, st, archive[i]);
      HandleNothingBehind(r, packages, archive, st, i, length);
    }
  }

  lemma ContinueUnfinished(r: Reader, packages: seq<Package>, st: State, entry: Entry)
    requires !Finished(packages, st)
    ensures var (next, signal) := Handle(r, packages, st, entry);
            (signal.Continue? ==> !Finished(packages, next)) && (signal.SkipAll? ==> Finished(packages, next))
  {
  }

  /** On an archive whose prefix is ready, one pass finishes and reads nothing behind the prefix. */
  lemma {:induction false} OnePassWithinPrefix(r: Reader, packages: seq<Package>, archive: Archive,
                                               blobs: map<Digest, Bytes>, st: State, i: nat, length: nat)
    requires FastArchive(r, packages, archive, blobs, length) && Inv(r, packages, blobs, st)
    requires NothingBehind(archive, st, i) && i <= length && !Finished(packages, st)
    ensures var p := RunPass(r, packages, archive, st, i);
            p.error.None? && p.read <= length && Finished(packages, p.state)
    decreases |archive| - i
  {
    if i == length {
      NothingNeededBehindPrefix(r, packages, archive, blobs, st, length);
    } else {
      PrefixStep(r, packages, archive, blobs, st, i, length);
      var (next, signal) := Handle(r, packages, st, archive[i]);
      ContinueUnfinished(r, packages, st, archive[i]);
      if signal.Continue? {
        OnePassWithinPrefix(r, packages, archive, blobs, next, i + 1, length);
      }
    }
  }
}
