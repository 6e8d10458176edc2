/** Reachability, verification and pruning of content-addressed blobs, internal/oci/store.go. */
module ContentGraph {
  import opened Wrappers
  import opened Oci

  const MANIFEST_TYPES: set<MediaType> :=
    {ImageManifest, ImageIndex, ArtifactManifest, DockerManifest, DockerManifestList}

  /** How manifest bytes list their successors, and how bytes are addressed. */
  datatype Decoder = Decoder(parse: (MediaType, Bytes) -> Option<seq<Descriptor>>, hash: Bytes -> Digest)

  datatype GraphError =
    | ConflictingSize(digest: Digest) | ReadSuccessors(digest: Digest) | VerifyDescriptor(digest: Digest)

  /** The blob a descriptor names is there, of the right size and digest. */
  predicate Verified(dec: Decoder, blobs: ContentMap, d: Descriptor) {
    d.digest in blobs && |blobs[d.digest]| == d.size && dec.hash(blobs[d.digest]) == d.digest
  }

  /** The descriptors a descriptor leads to; manifest-like content is verified and parsed, anything else is a leaf. */
  function Successors(dec: Decoder, blobs: ContentMap, d: Descriptor): Option<seq<Descriptor>> {
    if d.mediaType !in MANIFEST_TYPES then Some([])
    else if Verified(dec, blobs, d) then dec.parse(d.mediaType, blobs[d.digest])
    else None
  }

  /** Image manifests and indexes, artifact manifests and both kinds of Docker manifest lead on, to what their bytes
      list once these have the size and the digest that the descriptor states; any other content leads nowhere. */
  lemma SuccessorsByType(dec: Decoder, blobs: ContentMap, d: Descriptor)
    ensures Successors(dec, blobs, d) ==
            match d.mediaType
            case OtherType(_) => Some([])
            case _ =>
              if d.digest in blobs && d.size == |blobs[d.digest]| && d.digest == dec.hash(blobs[d.digest])
              then dec.parse(d.mediaType, blobs[d.digest])
              else None
  {
  }

  /** Every digest that some manifest in the store can lead to. */
  function Mentioned(dec: Decoder, blobs: ContentMap): set<Digest> {
    set d, m, i | d in blobs && m in MANIFEST_TYPES && dec.parse(m, blobs[d]).Some?
                  && 0 <= i < |dec.parse(m, blobs[d]).value| :: dec.parse(m, blobs[d]).value[i].digest
  }

  function DigestsOf(ds: seq<Descriptor>): set<Digest> {
    set i | 0 <= i < |ds| :: ds[i].digest
  }

  lemma SuccessorsMentioned(dec: Decoder, blobs: ContentMap, d: Descriptor)
    requires Successors(dec, blobs, d).Some?
    ensures DigestsOf(Successors(dec, blobs, d).value) <= Mentioned(dec, blobs)
  {
    var next := Successors(dec, blobs, d).value;
    forall x | x in DigestsOf(next) ensures x in Mentioned(dec, blobs) {
      var i :| 0 <= i < |next| && next[i].digest == x;
      assert d.digest in blobs && d.mediaType in MANIFEST_TYPES && dec.parse(d.mediaType, blobs[d.digest]).Some?;
    }
  }

  lemma DigestsConcat(a: seq<Descriptor>, b: seq<Descriptor>)
    ensures DigestsOf(a + b) == DigestsOf(a) + DigestsOf(b)
  {
    var c := a + b;
    forall x | x in DigestsOf(a) + DigestsOf(b) ensures x in DigestsOf(c) {
      if x in DigestsOf(a) {
        var i :| 0 <= i < |a| && a[i].digest == x;
        assert c[i].digest == x;
      } else {
        var i :| 0 <= i < |b| && b[i].digest == x;
        assert c[|a| + i].digest == x;
      }
    }
  }

  /** The breadth-first search from a worklist; universe bounds what can be met. */
  function Bfs(dec: Decoder, blobs: ContentMap, verifyLeaves: bool, queue: seq<Descriptor>, seen: set<Digest>,
               seenSizes: map<Digest, int>, ghost universe: set<Digest>): Result<set<Digest>, GraphError>
    requires DigestsOf(queue) <= universe && Mentioned(dec, blobs) <= universe
    decreases universe - seen, |queue|
  {
    if queue == [] then Ok(seen)
    else
      var desc, rest := queue[0], queue[1..];
      assert queue == [desc] + rest && DigestsOf(queue) == DigestsOf([desc]) + DigestsOf(rest) by {
        DigestsConcat([desc], rest);
      }
      assert [desc][0].digest in DigestsOf(queue);
      if desc.digest in seenSizes && seenSizes[desc.digest] != desc.size then Err(ConflictingSize(desc.digest))
      else
        var sizes := seenSizes[desc.digest := desc.size];
        if desc.digest in seen then Bfs(dec, blobs, verifyLeaves, rest, seen, sizes, universe)
        else
          var successors := Successors(dec, blobs, desc);
          if successors.None? then Err(ReadSuccessors(desc.digest))
          else if verifyLeaves && successors.value == [] && !Verified(dec, blobs, desc) then
            Err(VerifyDescriptor(desc.digest))
          else
            SuccessorsMentioned(dec, blobs, desc);
            DigestsConcat(rest, successors.value);
            Bfs(dec, blobs, verifyLeaves, rest + successors.value, seen + {desc.digest}, sizes, universe)
  }

  function ReachableDigests(dec: Decoder, blobs: ContentMap, roots: seq<Descriptor>, verifyLeaves: bool)
    : Result<set<Digest>, GraphError>
  {
    Bfs(dec, blobs, verifyLeaves, roots, {}, map[], DigestsOf(roots) + Mentioned(dec, blobs))
  }

  // The reference: paths.

  ghost predicate Leads(dec: Decoder, blobs: ContentMap, a: Descriptor, b: Descriptor) {
    Successors(dec, blobs, a).Some? && b in Successors(dec, blobs, a).value
  }

  ghost predicate IsPath(dec: Decoder, blobs: ContentMap, p: seq<Descriptor>) {
    |p| > 0 && forall i :: 0 <= i < |p| - 1 ==> Leads(dec, blobs, p[i], p[i + 1])
  }

  ghost predicate PathTo(dec: Decoder, blobs: ContentMap, roots: seq<Descriptor>, d: Descriptor, p: seq<Descriptor>) {
    IsPath(dec, blobs, p) && p[0] in roots && p[|p| - 1] == d
  }

  ghost predicate Reachable(dec: Decoder, blobs: ContentMap, roots: seq<Descriptor>, d: Descriptor) {
    exists p :: PathTo(dec, blobs, roots, d, p)
  }

  lemma RootReachable(dec: Decoder, blobs: ContentMap, roots: seq<Descriptor>, d: Descriptor)
    requires d in roots
    ensures Reachable(dec, blobs, roots, d)
  {
    assert PathTo(dec, blobs, roots, d, [d]);
  }

  lemma NextReachable(dec: Decoder, blobs: ContentMap, roots: seq<Descriptor>, a: Descriptor, b: Descriptor)
    requires Reachable(dec, blobs, roots, a) && Leads(dec, blobs, a, b)
    ensures Reachable(dec, blobs, roots, b)
  {
    var p :| PathTo(dec, blobs, roots, a, p);
    assert PathTo(dec, blobs, roots, b, p + [b]);
  }

  /** Some reachable descriptor has the digest. */
  ghost predicate DigestReachable(dec: Decoder, blobs: ContentMap, roots: seq<Descriptor>, x: Digest) {
    exists d :: Reachable(dec, blobs, roots, d) && d.digest == x
  }

  /** Reachable descriptors of one digest lead to the same, whatever their media types; the search looks at digests
      only. */
  ghost predicate SameSuccessors(dec: Decoder, blobs: ContentMap, roots: seq<Descriptor>) {
    forall a, b :: Reachable(dec, blobs, roots, a) && Reachable(dec, blobs, roots, b) && a.digest == b.digest ==>
      Successors(dec, blobs, a) == Successors(dec, blobs, b)
  }

  /** One media type per digest is enough where sizes agree, as they do in sound graphs; so is one digest under several
      leaf types. */
  lemma MediaTypesGiveSuccessors(dec: Decoder, blobs: ContentMap, roots: seq<Descriptor>)
    requires forall a, b ::
               Reachable(dec, blobs, roots, a) && Reachable(dec, blobs, roots, b) && a.digest == b.digest ==>
               || (a.mediaType == b.mediaType && a.size == b.size)
               || (a.mediaType !in MANIFEST_TYPES && b.mediaType !in MANIFEST_TYPES)
    ensures SameSuccessors(dec, blobs, roots)
  {
  }

  /** What one descriptor must satisfy for the search to get past it. */
  ghost predicate Readable(dec: Decoder, blobs: ContentMap, verifyLeaves: bool, d: Descriptor) {
    && Successors(dec, blobs, d).Some?
    && (verifyLeaves && Successors(dec, blobs, d).value == [] ==> Verified(dec, blobs, d))
  }

  /** Everything reachable is readable, and occurrences of one digest agree on its size. */
  ghost predicate SoundGraph(dec: Decoder, blobs: ContentMap, roots: seq<Descriptor>, verifyLeaves: bool) {
    && (forall d :: Reachable(dec, blobs, roots, d) ==> Readable(dec, blobs, verifyLeaves, d))
    && (forall a, b :: Reachable(dec, blobs, roots, a) && Reachable(dec, blobs, roots, b) && a.digest == b.digest ==>
          a.size == b.size)
  }

  // The search against the reference.

  /** d is waiting, or its digest has been seen with its size. */
  ghost predicate Covered(queue: seq<Descriptor>, sizes: map<Digest, int>, d: Descriptor) {
    d in queue || (d.digest in sizes && sizes[d.digest] == d.size)
  }

  /** The descriptor under which a digest was expanded: reachable, readable, with all successors covered. */
  ghost predicate Expanded(dec: Decoder, blobs: ContentMap, roots: seq<Descriptor>, verifyLeaves: bool,
                           queue: seq<Descriptor>, sizes: map<Digest, int>, x: Digest, rep: Descriptor) {
    && rep.digest == x && x in sizes && sizes[x] == rep.size
    && Reachable(dec, blobs, roots, rep) && Readable(dec, blobs, verifyLeaves, rep)
    && forall c :: Leads(dec, blobs, rep, c) ==> Covered(queue, sizes, c)
  }

  ghost predicate SearchState(dec: Decoder, blobs: ContentMap, roots: seq<Descriptor>, verifyLeaves: bool,
                              queue: seq<Descriptor>, seen: set<Digest>, sizes: map<Digest, int>,
                              reps: map<Digest, Descriptor>) {
    && sizes.Keys == seen == reps.Keys
    && (forall d :: d in queue ==> Reachable(dec, blobs, roots, d))
    && (forall d :: d in roots ==> Covered(queue, sizes, d))
    && (forall x :: x in reps ==> Expanded(dec, blobs, roots, verifyLeaves, queue, sizes, x, reps[x]))
  }

  lemma StillCovered(queue: seq<Descriptor>, sizes: map<Digest, int>, more: seq<Descriptor>, d: Descriptor)
    requires queue != [] && Covered(queue, sizes, d)
    requires queue[0].digest in sizes ==> sizes[queue[0].digest] == queue[0].size
    ensures Covered(queue[1..] + more, sizes[queue[0].digest := queue[0].size], d)
  {
    if d in queue {
      var i :| 0 <= i < |queue| && queue[i] == d;
      if i > 0 {
        assert queue[1..][i - 1] == d && d in queue[1..];
      }
    }
  }

  lemma SkipKeeps(dec: Decoder, blobs: ContentMap, roots: seq<Descriptor>, verifyLeaves: bool, queue: seq<Descriptor>,
                  seen: set<Digest>, sizes: map<Digest, int>, reps: map<Digest, Descriptor>)
    requires SearchState(dec, blobs, roots, verifyLeaves, queue, seen, sizes, reps) && queue != []
    requires queue[0].digest in seen && sizes[queue[0].digest] == queue[0].size
    ensures SearchState(dec, blobs, roots, verifyLeaves, queue[1..], seen, sizes[queue[0].digest := queue[0].size],
                        reps)
  {
    var desc := queue[0];
    assert sizes[desc.digest := desc.size] == sizes;
    assert queue[1..] + [] == queue[1..];
    forall d | Covered(queue, sizes, d) ensures Covered(queue[1..], sizes, d) {
      StillCovered(queue, sizes, [], d);
    }
    forall x | x in reps ensures Expanded(dec, blobs, roots, verifyLeaves, queue[1..], sizes, x, reps[x]) {
      assert Expanded(dec, blobs, roots, verifyLeaves, queue, sizes, x, reps[x]);
    }
  }

  lemma ExpandKeeps(dec: Decoder, blobs: ContentMap, roots: seq<Descriptor>, verifyLeaves: bool, queue: seq<Descriptor>,
                    seen: set<Digest>, sizes: map<Digest, int>, reps: map<Digest, Descriptor>)
    requires SearchState(dec, blobs, roots, verifyLeaves, queue, seen, sizes, reps) && queue != []
    requires queue[0].digest !in seen && Readable(dec, blobs, verifyLeaves, queue[0])
    ensures SearchState(dec, blobs, roots, verifyLeaves, queue[1..] + Successors(dec, blobs, queue[0]).value,
                        seen + {queue[0].digest}, sizes[queue[0].digest := queue[0].size],
                        reps[queue[0].digest := queue[0]])
  {
    var desc, next := queue[0], Successors(dec, blobs, queue[0]).value;
    var queue', sizes', reps' := queue[1..] + next, sizes[desc.digest := desc.size], reps[desc.digest := desc];
    forall d | d in queue' ensures Reachable(dec, blobs, roots, d) {
      if d !in queue[1..] {
        NextReachable(dec, blobs, roots, desc, d);
      }
    }
    forall d | Covered(queue, sizes, d) ensures Covered(queue', sizes', d) {
      StillCovered(queue, sizes, next, d);
    }
    forall x | x in reps' ensures Expanded(dec, blobs, roots, verifyLeaves, queue', sizes', x, reps'[x]) {
      if x == desc.digest {
        forall c | Leads(dec, blobs, desc, c) ensures Covered(queue', sizes', c) {
          assert c in next;
        }
      } else {
        assert Expanded(dec, blobs, roots, verifyLeaves, queue, sizes, x, reps[x]);
      }
    }
  }

  /** What a finished search has established. */
  ghost predicate Finished(dec: Decoder, blobs: ContentMap, roots: seq<Descriptor>, verifyLeaves: bool,
                           seen: set<Digest>)
  {
    exists sizes, reps :: SearchState(dec, blobs, roots, verifyLeaves, [], seen, sizes, reps)
  }

  /** Success ends in a finished search, failure exhibits an unsound graph. */
  lemma {:induction false} BfsOutcome(dec: Decoder, blobs: ContentMap, roots: seq<Descriptor>, verifyLeaves: bool,
                                      queue: seq<Descriptor>, seen: set<Digest>, sizes: map<Digest, int>,
                                      reps: map<Digest, Descriptor>, universe: set<Digest>)
    requires DigestsOf(queue) <= universe && Mentioned(dec, blobs) <= universe
    requires SearchState(dec, blobs, roots, verifyLeaves, queue, seen, sizes, reps)
    ensures match Bfs(dec, blobs, verifyLeaves, queue, seen, sizes, universe)
            case Ok(found) => Finished(dec, blobs, roots, verifyLeaves, found)
            case Err(_) => !SoundGraph(dec, blobs, roots, verifyLeaves)
    decreases universe - seen, |queue|
  {
    if queue != [] {
      var desc := queue[0];
      DigestsConcat([desc], queue[1..]);
      assert queue == [desc] + queue[1..] && [desc][0].digest in DigestsOf([desc]);
      if desc.digest in sizes && sizes[desc.digest] != desc.size {
        assert Expanded(dec, blobs, roots, verifyLeaves, queue, sizes, desc.digest, reps[desc.digest]);
        assert desc in queue && Reachable(dec, blobs, roots, desc);
      } else if desc.digest in seen {
        SkipKeeps(dec, blobs, roots, verifyLeaves, queue, seen, sizes, reps);
        BfsOutcome(dec, blobs, roots, verifyLeaves, queue[1..], seen, sizes[desc.digest := desc.size], reps, universe);
      } else if !Readable(dec, blobs, verifyLeaves, desc) {
        assert desc in queue && Reachable(dec, blobs, roots, desc);
      } else {
        ExpandKeeps(dec, blobs, roots, verifyLeaves, queue, seen, sizes, reps);
        SuccessorsMentioned(dec, blobs, desc);
        DigestsConcat(queue[1..], Successors(dec, blobs, desc).value);
        BfsOutcome(dec, blobs, roots, verifyLeaves, queue[1..] + Successors(dec, blobs, desc).value,
                   seen + {desc.digest}, sizes[desc.digest := desc.size], reps[desc.digest := desc], universe);
      }
    }
  }

  /** Along a path from the roots everything is covered, with the same successors as its digest's representative. */
  lemma {:induction false} PathCovered(dec: Decoder, blobs: ContentMap, roots: seq<Descriptor>, verifyLeaves: bool,
                                       seen: set<Digest>, sizes: map<Digest, int>, reps: map<Digest, Descriptor>,
                                       p: seq<Descriptor>)
    requires SearchState(dec, blobs, roots, verifyLeaves, [], seen, sizes, reps) && SameSuccessors(dec, blobs, roots)
    requires IsPath(dec, blobs, p) && p[0] in roots
    ensures var d := p[|p| - 1];
            && d.digest in seen && sizes[d.digest] == d.size
            && Readable(dec, blobs, verifyLeaves, d)
            && Successors(dec, blobs, d) == Successors(dec, blobs, reps[d.digest])
    decreases |p|
  {
    var d := p[|p| - 1];
    if |p| == 1 {
      assert Covered([], sizes, d);
    } else {
      var init := p[..|p| - 1];
      assert IsPath(dec, blobs, init) by {
        forall i | 0 <= i < |init| - 1 ensures Leads(dec, blobs, init[i], init[i + 1]) {
          assert Leads(dec, blobs, p[i], p[i + 1]);
        }
      }
      PathCovered(dec, blobs, roots, verifyLeaves, seen, sizes, reps, init);
      var before := init[|init| - 1];
      assert Leads(dec, blobs, p[|p| - 2], d) && before == p[|p| - 2];
      var rep := reps[before.digest];
      assert Expanded(dec, blobs, roots, verifyLeaves, [], sizes, before.digest, rep);
      assert Leads(dec, blobs, rep, d);
      assert Covered([], sizes, d);
    }
    assert PathTo(dec, blobs, roots, d, p);
    assert Expanded(dec, blobs, roots, verifyLeaves, [], sizes, d.digest, reps[d.digest]);
    SameContent(dec, blobs, verifyLeaves, d, reps[d.digest]);
  }

  /** Digest, size and successors are all that matters to the search. */
  lemma SameContent(dec: Decoder, blobs: ContentMap, verifyLeaves: bool, a: Descriptor, b: Descriptor)
    requires a.digest == b.digest && a.size == b.size && Successors(dec, blobs, a) == Successors(dec, blobs, b)
    ensures Readable(dec, blobs, verifyLeaves, a) == Readable(dec, blobs, verifyLeaves, b)
  {
  }

  lemma FinishedIsReachable(dec: Decoder, blobs: ContentMap, roots: seq<Descriptor>, verifyLeaves: bool,
                            seen: set<Digest>)
    requires Finished(dec, blobs, roots, verifyLeaves, seen) && SameSuccessors(dec, blobs, roots)
    ensures SoundGraph(dec, blobs, roots, verifyLeaves)
    ensures forall x :: x in seen <==> DigestReachable(dec, blobs, roots, x)
  {
    var sizes, reps :| SearchState(dec, blobs, roots, verifyLeaves, [], seen, sizes, reps);
    forall d | Reachable(dec, blobs, roots, d)
      ensures Readable(dec, blobs, verifyLeaves, d) && d.digest in seen && sizes[d.digest] == d.size {
      var p :| PathTo(dec, blobs, roots, d, p);
      PathCovered(dec, blobs, roots, verifyLeaves, seen, sizes, reps, p);
    }
    forall x | x in seen ensures DigestReachable(dec, blobs, roots, x) {
      assert Expanded(dec, blobs, roots, verifyLeaves, [], sizes, x, reps[x]);
    }
  }

  /** On any graph at all, a failing search has met something unsound, and a successful one has expanded every digest it
      found under one reachable, readable descriptor. */
  lemma SearchOutcome(dec: Decoder, blobs: ContentMap, roots: seq<Descriptor>, verifyLeaves: bool)
    ensures match ReachableDigests(dec, blobs, roots, verifyLeaves)
            case Ok(found) => Finished(dec, blobs, roots, verifyLeaves, found)
            case Err(_) => !SoundGraph(dec, blobs, roots, verifyLeaves)
  {
    forall d | d in roots ensures Reachable(dec, blobs, roots, d) {
      RootReachable(dec, blobs, roots, d);
    }
    BfsOutcome(dec, blobs, roots, verifyLeaves, roots, {}, map[], map[], DigestsOf(roots) + Mentioned(dec, blobs));
  }

  /** The search succeeds exactly on sound graphs, and finds exactly the digests of what the roots reach. */
  lemma ReachableExactly(dec: Decoder, blobs: ContentMap, roots: seq<Descriptor>, verifyLeaves: bool)
    requires SameSuccessors(dec, blobs, roots)
    ensures var r := ReachableDigests(dec, blobs, roots, verifyLeaves);
            && (r.Ok? <==> SoundGraph(dec, blobs, roots, verifyLeaves))
            && (r.Ok? ==> forall x :: x in r.value <==> DigestReachable(dec, blobs, roots, x))
  {
    SearchOutcome(dec, blobs, roots, verifyLeaves);
    var r := ReachableDigests(dec, blobs, roots, verifyLeaves);
    if r.Ok? {
      FinishedIsReachable(dec, blobs, roots, verifyLeaves, r.value);
    }
  }

  /** No occurrence of a found digest leads outside of what was found. */
  ghost predicate NothingHidden(dec: Decoder, blobs: ContentMap, roots: seq<Descriptor>, found: set<Digest>) {
    forall a, b :: Reachable(dec, blobs, roots, a) && a.digest in found && Leads(dec, blobs, a, b) ==> b.digest in found
  }

  lemma {:induction false} PathFound(dec: Decoder, blobs: ContentMap, roots: seq<Descriptor>, found: set<Digest>,
                                     p: seq<Descriptor>)
    requires NothingHidden(dec, blobs, roots, found) && forall d :: d in roots ==> d.digest in found
    requires IsPath(dec, blobs, p) && p[0] in roots
    ensures p[|p| - 1].digest in found
    decreases |p|
  {
    if |p| > 1 {
      var init := p[..|p| - 1];
      forall i | 0 <= i < |init| - 1 ensures Leads(dec, blobs, init[i], init[i + 1]) {
        assert Leads(dec, blobs, p[i], p[i + 1]);
      }
      PathFound(dec, blobs, roots, found, init);
      PrefixPath(dec, blobs, roots, p, |p| - 2);
      assert Leads(dec, blobs, p[|p| - 2], p[|p| - 1]) && init[|init| - 1] == p[|p| - 2];
    }
  }

  /** On any graph a successful search finds reachable digests only, and all of them exactly when nothing is hidden. */
  lemma FoundExactly(dec: Decoder, blobs: ContentMap, roots: seq<Descriptor>, verifyLeaves: bool)
    requires ReachableDigests(dec, blobs, roots, verifyLeaves).Ok?
    ensures var found := ReachableDigests(dec, blobs, roots, verifyLeaves).value;
            && (forall x :: x in found ==> DigestReachable(dec, blobs, roots, x))
            && ((forall x :: DigestReachable(dec, blobs, roots, x) ==> x in found)
                <==> NothingHidden(dec, blobs, roots, found))
  {
    var found := ReachableDigests(dec, blobs, roots, verifyLeaves).value;
    SearchOutcome(dec, blobs, roots, verifyLeaves);
    var sizes, reps :| SearchState(dec, blobs, roots, verifyLeaves, [], found, sizes, reps);
    forall x | x in found ensures DigestReachable(dec, blobs, roots, x) {
      assert Expanded(dec, blobs, roots, verifyLeaves, [], sizes, x, reps[x]);
    }
    forall d | d in roots ensures d.digest in found {
      assert Covered([], sizes, d);
    }
    if NothingHidden(dec, blobs, roots, found) {
      forall x | DigestReachable(dec, blobs, roots, x) ensures x in found {
        var d :| Reachable(dec, blobs, roots, d) && d.digest == x;
        var p :| PathTo(dec, blobs, roots, d, p);
        PathFound(dec, blobs, roots, found, p);
      }
    }
    if forall x :: DigestReachable(dec, blobs, roots, x) ==> x in found {
      forall a, b | Reachable(dec, blobs, roots, a) && Leads(dec, blobs, a, b) ensures b.digest in found {
        NextReachable(dec, blobs, roots, a, b);
        assert DigestReachable(dec, blobs, roots, b.digest);
      }
    }
  }

  /** The result is the least set that holds the roots' digests and is closed under successors. */
  lemma ReachableIsLeast(dec: Decoder, blobs: ContentMap, roots: seq<Descriptor>, verifyLeaves: bool,
                         closed: set<Digest>)
    requires SameSuccessors(dec, blobs, roots) && ReachableDigests(dec, blobs, roots, verifyLeaves).Ok?
    requires DigestsOf(roots) <= closed
    requires forall a: Descriptor, b: Descriptor :: a.digest in closed && Leads(dec, blobs, a, b) ==> b.digest in closed
    ensures DigestsOf(roots) <= ReachableDigests(dec, blobs, roots, verifyLeaves).value <= closed
  {
    var found := ReachableDigests(dec, blobs, roots, verifyLeaves).value;
    ReachableExactly(dec, blobs, roots, verifyLeaves);
    forall x | x in DigestsOf(roots) ensures x in found {
      var i :| 0 <= i < |roots| && roots[i].digest == x;
      RootReachable(dec, blobs, roots, roots[i]);
    }
    forall x | x in found ensures x in closed {
      var d :| Reachable(dec, blobs, roots, d) && d.digest == x;
      var p :| PathTo(dec, blobs, roots, d, p);
      assert p[0] in roots;
      var i :| 0 <= i < |roots| && roots[i] == p[0];
      assert roots[i].digest in DigestsOf(roots);
      PathStaysIn(dec, blobs, p, closed);
    }
  }

  lemma {:induction false} PathStaysIn(dec: Decoder, blobs: ContentMap, p: seq<Descriptor>, closed: set<Digest>)
    requires IsPath(dec, blobs, p) && p[0].digest in closed
    requires forall a: Descriptor, b: Descriptor :: a.digest in closed && Leads(dec, blobs, a, b) ==> b.digest in closed
    ensures p[|p| - 1].digest in closed
    decreases |p|
  {
    if |p| > 1 {
      var init := p[..|p| - 1];
      assert IsPath(dec, blobs, init) by {
        forall i | 0 <= i < |init| - 1 ensures Leads(dec, blobs, init[i], init[i + 1]) {
          assert Leads(dec, blobs, p[i], p[i + 1]);
        }
      }
      PathStaysIn(dec, blobs, init, closed);
      assert Leads(dec, blobs, p[|p| - 2], p[|p| - 1]);
    }
  }

  const CHILD := Descriptor(OtherType("layer"), "c", 1, NoArtifact, None)
  const AS_LEAF := Descriptor(OtherType("layer"), "i", 1, NoArtifact, None)
  const AS_INDEX := Descriptor(ImageIndex, "i", 1, NoArtifact, None)

  function ListChild(m: MediaType, data: Bytes): Option<seq<Descriptor>> {
    if data == "I" then Some([CHILD]) else None
  }

  function SampleHash(data: Bytes): Digest {
    if data == "I" then "i" else "c"
  }

  /** A digest that is met first as a leaf is never expanded as an index, so its successors are missed and would be
      pruned: that occurrences of a digest lead to the same is a real condition. */
  lemma DigestReuseHidesSuccessors()
    ensures var dec := Decoder(ListChild, SampleHash);
            var blobs := map["i" := "I", "c" := "C"];
            var roots := [AS_LEAF, AS_INDEX];
            && ReachableDigests(dec, blobs, roots, false) == Ok({"i"})
            && Reachable(dec, blobs, roots, CHILD) && CHILD.digest != "i"
  {
    var dec := Decoder(ListChild, SampleHash);
    var blobs := map["i" := "I", "c" := "C"];
    var roots := [AS_LEAF, AS_INDEX];
    assert "i"[0] != "c"[0];
    var universe := DigestsOf(roots) + Mentioned(dec, blobs);
    assert roots[1..] == [AS_INDEX] && [AS_INDEX][1..] == [] && [AS_INDEX] + [] == [AS_INDEX];
    assert [AS_INDEX][0].digest == "i" && roots[0].digest == "i" && roots[1].digest == "i";
    var sizes := map["i" := 1];
    assert map[]["i" := 1] == sizes && sizes["i" := 1] == sizes;
    assert "i" in DigestsOf(roots);
    assert Successors(dec, blobs, AS_LEAF) == Some([]);
    assert Bfs(dec, blobs, false, [], {"i"}, sizes, universe) == Ok({"i"});
    assert Bfs(dec, blobs, false, [AS_INDEX], {"i"}, sizes, universe) == Ok({"i"});
    var none: set<Digest>, noSizes: map<Digest, int> := {}, map[];
    assert none + {"i"} == {"i"} && noSizes["i" := 1] == sizes && roots[1..] + [] == [AS_INDEX];
    assert Bfs(dec, blobs, false, roots, none, noSizes, universe) ==
           Bfs(dec, blobs, false, roots[1..] + [], none + {"i"}, noSizes["i" := 1], universe);
    assert ReachableDigests(dec, blobs, roots, false) == Ok({"i"});
    assert Successors(dec, blobs, AS_INDEX) == Some([CHILD]);
    assert Leads(dec, blobs, AS_INDEX, CHILD);
    assert AS_INDEX in roots;
    RootReachable(dec, blobs, roots, AS_INDEX);
    NextReachable(dec, blobs, roots, AS_INDEX, CHILD);
  }

  // Pruning.

  function Kept(blobs: ContentMap, keep: set<Digest>): ContentMap {
    map d | d in blobs && d in keep :: blobs[d]
  }

  lemma KeptContent(dec: Decoder, blobs: ContentMap, keep: set<Digest>, d: Descriptor)
    requires d.digest in keep
    ensures Verified(dec, Kept(blobs, keep), d) == Verified(dec, blobs, d)
    ensures Successors(dec, Kept(blobs, keep), d) == Successors(dec, blobs, d)
  {
  }

  /** Paths of the old store are paths of the pruned store... */
  lemma {:induction false} PathKept(dec: Decoder, blobs: ContentMap, roots: seq<Descriptor>, keep: set<Digest>,
                                    p: seq<Descriptor>)
    requires forall d :: Reachable(dec, blobs, roots, d) ==> d.digest in keep
    requires IsPath(dec, blobs, p) && p[0] in roots
    ensures IsPath(dec, Kept(blobs, keep), p)
  {
    forall i | 0 <= i < |p| - 1 ensures Leads(dec, Kept(blobs, keep), p[i], p[i + 1]) {
      assert Leads(dec, blobs, p[i], p[i + 1]);
      PrefixPath(dec, blobs, roots, p, i);
      KeptContent(dec, blobs, keep, p[i]);
    }
  }

  lemma PrefixPath(dec: Decoder, blobs: ContentMap, roots: seq<Descriptor>, p: seq<Descriptor>, i: nat)
    requires IsPath(dec, blobs, p) && p[0] in roots && i < |p|
    ensures Reachable(dec, blobs, roots, p[i])
  {
    var q := p[..i + 1];
    forall k | 0 <= k < |q| - 1 ensures Leads(dec, blobs, q[k], q[k + 1]) {
      assert Leads(dec, blobs, p[k], p[k + 1]);
    }
    assert PathTo(dec, blobs, roots, p[i], q);
  }

  /** ...and the other way round. */
  lemma {:induction false} PathOfPruned(dec: Decoder, blobs: ContentMap, roots: seq<Descriptor>, keep: set<Digest>,
                                        p: seq<Descriptor>)
    requires forall d :: Reachable(dec, blobs, roots, d) ==> d.digest in keep
    requires IsPath(dec, Kept(blobs, keep), p) && p[0] in roots
    ensures IsPath(dec, blobs, p)
    decreases |p|
  {
    if |p| > 1 {
      var init := p[..|p| - 1];
      assert IsPath(dec, Kept(blobs, keep), init) by {
        forall i | 0 <= i < |init| - 1 ensures Leads(dec, Kept(blobs, keep), init[i], init[i + 1]) {
          assert Leads(dec, Kept(blobs, keep), p[i], p[i + 1]);
        }
      }
      PathOfPruned(dec, blobs, roots, keep, init);
      var last := init[|init| - 1];
      PrefixPath(dec, blobs, roots, init, |init| - 1);
      KeptContent(dec, blobs, keep, last);
      assert Leads(dec, Kept(blobs, keep), p[|p| - 2], p[|p| - 1]);
      forall i | 0 <= i < |p| - 1 ensures Leads(dec, blobs, p[i], p[i + 1]) {
        if i < |init| - 1 {
          assert Leads(dec, blobs, init[i], init[i + 1]);
        }
      }
    }
  }

  /** Pruning to what is reachable changes nothing about what is reachable. */
  lemma ReachabilityKept(dec: Decoder, blobs: ContentMap, roots: seq<Descriptor>, keep: set<Digest>, d: Descriptor)
    requires forall d :: Reachable(dec, blobs, roots, d) ==> d.digest in keep
    ensures Reachable(dec, Kept(blobs, keep), roots, d) <==> Reachable(dec, blobs, roots, d)
  {
    if Reachable(dec, blobs, roots, d) {
      var p :| PathTo(dec, blobs, roots, d, p);
      PathKept(dec, blobs, roots, keep, p);
      assert PathTo(dec, Kept(blobs, keep), roots, d, p);
    }
    if Reachable(dec, Kept(blobs, keep), roots, d) {
      var p :| PathTo(dec, Kept(blobs, keep), roots, d, p);
      PathOfPruned(dec, blobs, roots, keep, p);
      assert PathTo(dec, blobs, roots, d, p);
    }
  }

  /** A graph is as sound after pruning as before, leaves included. */
  lemma PruningKeepsSoundness(dec: Decoder, blobs: ContentMap, roots: seq<Descriptor>, keep: set<Digest>,
                              verifyLeaves: bool)
    requires forall d :: Reachable(dec, blobs, roots, d) ==> d.digest in keep
    ensures SameSuccessors(dec, Kept(blobs, keep), roots) <==> SameSuccessors(dec, blobs, roots)
    ensures SoundGraph(dec, Kept(blobs, keep), roots, verifyLeaves) <==> SoundGraph(dec, blobs, roots, verifyLeaves)
  {
    forall d ensures Reachable(dec, Kept(blobs, keep), roots, d) <==> Reachable(dec, blobs, roots, d) {
      ReachabilityKept(dec, blobs, roots, keep, d);
    }
    forall d | Reachable(dec, blobs, roots, d)
      ensures Readable(dec, Kept(blobs, keep), verifyLeaves, d) == Readable(dec, blobs, verifyLeaves, d) {
      KeptContent(dec, blobs, keep, d);
    }
  }

  /** Pruning twice is pruning once, and a graph verifies afterwards exactly when it did before. */
  lemma PruningIdempotent(dec: Decoder, blobs: ContentMap, roots: seq<Descriptor>)
    requires SameSuccessors(dec, blobs, roots) && ReachableDigests(dec, blobs, roots, false).Ok?
    ensures var keep := ReachableDigests(dec, blobs, roots, false).value;
            var pruned := Kept(blobs, keep);
            && ReachableDigests(dec, pruned, roots, false) == Ok(keep)
            && Kept(pruned, keep) == pruned
            && (ReachableDigests(dec, blobs, roots, true).Ok? <==> ReachableDigests(dec, pruned, roots, true).Ok?)
  {
    ReachableExactly(dec, blobs, roots, false);
    var keep := ReachableDigests(dec, blobs, roots, false).value;
    var pruned := Kept(blobs, keep);
    PruningKeepsSoundness(dec, blobs, roots, keep, false);
    ReachableExactly(dec, pruned, roots, false);
    SameDigestsReached(dec, blobs, roots, keep, ReachableDigests(dec, pruned, roots, false).value);
    PruningKeepsSuccess(dec, blobs, roots, keep);
  }

  lemma PruningKeepsSuccess(dec: Decoder, blobs: ContentMap, roots: seq<Descriptor>, keep: set<Digest>)
    requires SameSuccessors(dec, blobs, roots) && forall d :: Reachable(dec, blobs, roots, d) ==> d.digest in keep
    ensures ReachableDigests(dec, blobs, roots, true).Ok? <==> ReachableDigests(dec, Kept(blobs, keep), roots, true).Ok?
  {
    PruningKeepsSoundness(dec, blobs, roots, keep, true);
    ReachableExactly(dec, blobs, roots, true);
    ReachableExactly(dec, Kept(blobs, keep), roots, true);
  }

  lemma SameDigestsReached(dec: Decoder, blobs: ContentMap, roots: seq<Descriptor>, keep: set<Digest>,
                           again: set<Digest>)
    requires forall x :: x in keep <==> DigestReachable(dec, blobs, roots, x)
    requires forall x :: x in again <==> DigestReachable(dec, Kept(blobs, keep), roots, x)
    ensures again == keep
  {
    forall d: Descriptor | Reachable(dec, blobs, roots, d) ensures d.digest in keep {
      assert DigestReachable(dec, blobs, roots, d.digest);
    }
    forall d ensures Reachable(dec, Kept(blobs, keep), roots, d) <==> Reachable(dec, blobs, roots, d) {
      ReachabilityKept(dec, blobs, roots, keep, d);
    }
    forall x ensures x in again <==> x in keep {
    }
  }

  /** An OCI layout: its blobs by digest. */
  class Store {
    const dec: Decoder
    var blobs: ContentMap

    constructor (dec: Decoder, blobs: ContentMap)
      ensures this.dec == dec && this.blobs == blobs
    {
      this.dec, this.blobs := dec, blobs;
    }

    method FindReachable(roots: seq<Descriptor>, verifyLeafContent: bool) returns (r: Result<set<Digest>, GraphError>)
      ensures r == ReachableDigests(dec, blobs, roots, verifyLeafContent)
    {
      ghost var universe := DigestsOf(roots) + Mentioned(dec, blobs);
      var queue := roots;
      var seen: set<Digest> := {};
      var seenSizes: map<Digest, int> := map[];
      while |queue| > 0
        invariant DigestsOf(queue) <= universe
        invariant Bfs(dec, blobs, verifyLeafContent, queue, seen, seenSizes, universe)
               == ReachableDigests(dec, blobs, roots, verifyLeafContent)
        decreases universe - seen, |queue|
      {
        var desc := queue[0];
        DigestsConcat([desc], queue[1..]);
        assert queue == [desc] + queue[1..] && [desc][0].digest in DigestsOf([desc]);
        queue := queue[1..];
        if desc.digest in seenSizes && seenSizes[desc.digest] != desc.size {
          return Err(ConflictingSize(desc.digest));
        }
        seenSizes := seenSizes[desc.digest := desc.size];
        if desc.digest in seen {
          continue;
        }
        var successors := Successors(dec, blobs, desc);
        if successors.None? {
          return Err(ReadSuccessors(desc.digest));
        }
        if verifyLeafContent && |successors.value| == 0 {
          if !Verified(dec, blobs, desc) {
            return Err(VerifyDescriptor(desc.digest));
          }
        }
        SuccessorsMentioned(dec, blobs, desc);
        DigestsConcat(queue, successors.value);
        seen := seen + {desc.digest};
        queue := queue + successors.value;
      }
      return Ok(seen);
    }

    method VerifyGraph(roots: seq<Descriptor>) returns (error: Option<GraphError>)
      ensures error.Some? ==> !SoundGraph(dec, blobs, roots, true)
      ensures error.None? ==> exists seen :: Finished(dec, blobs, roots, true, seen)
      ensures SameSuccessors(dec, blobs, roots) ==> (error.None? <==> SoundGraph(dec, blobs, roots, true))
    {
      var r := FindReachable(roots, true);
      SearchOutcome(dec, blobs, roots, true);
      if SameSuccessors(dec, blobs, roots) {
        ReachableExactly(dec, blobs, roots, true);
      }
      if r.Err? {
        return Some(r.error);
      }
      return None;
    }

    /** Deletes every blob that the manifests do not reach; on an error nothing is deleted. */
    method PruneUnreferencedBlobs(manifests: seq<Descriptor>) returns (error: Option<GraphError>)
      modifies this
      ensures error.Some? ==> blobs == old(blobs)
      ensures error.None? <==> ReachableDigests(dec, old(blobs), manifests, false).Ok?
      ensures error.None? ==> blobs == Kept(old(blobs), ReachableDigests(dec, old(blobs), manifests, false).value)
    {
      var keep := FindReachable(manifests, false);
      if keep.Err? {
        return Some(keep.error);
      }
      var listing := blobs.Keys;
      while listing != {}
        invariant listing <= old(blobs.Keys)
        invariant blobs == map d | d in old(blobs) && (d in keep.value || d in listing) :: old(blobs)[d]
        decreases |listing|
      {
        var digest :| digest in listing;
        listing := listing - {digest};
        if digest in keep.value {
          continue;
        }
        blobs := blobs - {digest};
      }
      return None;
    }
  }
}
