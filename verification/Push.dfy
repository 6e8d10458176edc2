/** The push of a bundle to a registry, internal/oci/transfer.go, cut off after any of its writes. */
module Push {
  import opened Wrappers
  import opened Oci
  import opened Registry
  import opened RootIndex

  // What is complete in a repository.

  ghost predicate Addressed(codec: Codec, content: ContentMap) {
    forall d :: d in content ==> codec.hash(content[d]) == d
  }

  ghost predicate SuccessorsIn(codec: Codec, data: Bytes, digests: set<Digest>) {
    forall s: Descriptor :: s in codec.successors(data) ==> s.digest in digests
  }

  /** Nothing is stored before what it refers to. */
  ghost predicate Closed(codec: Codec, content: ContentMap) {
    forall d :: d in content ==> SuccessorsIn(codec, content[d], content.Keys)
  }

  /** All that a digest leads to is stored. */
  ghost predicate Complete(codec: Codec, content: ContentMap, d: Digest) {
    exists graph: set<Digest> :: d in graph && CompleteGraph(codec, content, graph)
  }

  ghost predicate CompleteGraph(codec: Codec, content: ContentMap, graph: set<Digest>) {
    graph <= content.Keys && forall x :: x in graph ==> SuccessorsIn(codec, content[x], graph)
  }

  /** What every write of a push keeps. */
  ghost predicate Consistent(codec: Codec, content: ContentMap, tags: map<string, Descriptor>) {
    && SoundContent(codec, content)
    && (forall t :: t in tags ==> tags[t].digest in content)
  }

  /** The tag, if set, points at a stored root, and every child the root names is complete. */
  ghost predicate OnlyCompleteChildrenVisible(codec: Codec, content: ContentMap, tags: map<string, Descriptor>,
                                              tag: string)
  {
    tag in tags ==>
      && tags[tag].digest in content
      && (codec.unmarshal(content[tags[tag].digest]).Some? ==>
           forall m: Descriptor :: m in codec.unmarshal(content[tags[tag].digest]).value.manifests ==>
             Complete(codec, content, m.digest))
  }

  lemma ConsistentShowsOnlyComplete(codec: Codec, content: ContentMap, tags: map<string, Descriptor>, tag: string)
    requires Faithful(codec) && Consistent(codec, content, tags)
    ensures OnlyCompleteChildrenVisible(codec, content, tags, tag)
  {
    assert CompleteGraph(codec, content, content.Keys);
    if tag in tags {
      assert ListsItsManifests(codec, content[tags[tag].digest]);
    }
  }

  // Copying a graph.

  predicate SourceHas(codec: Codec, src: ContentMap, d: Digest) {
    d in src && codec.hash(src[d]) == d
  }

  ghost predicate ClosedInSource(codec: Codec, src: ContentMap, digests: set<Digest>) {
    forall x :: x in digests && SourceHas(codec, src, x) ==> SuccessorsIn(codec, src[x], digests)
  }

  /** The digests of a source graph: those in every set that holds the root and is closed under successors. */
  ghost predicate Needed(codec: Codec, src: ContentMap, root: Digest, d: Digest) {
    forall digests: set<Digest> :: root in digests && ClosedInSource(codec, src, digests) ==> d in digests
  }

  /** Content addressing leaves no cycles: successors have lower rank. */
  ghost predicate Ranked(codec: Codec, src: ContentMap, rank: Digest -> nat) {
    forall d, s: Descriptor :: d in src && s in codec.successors(src[d]) ==> rank(s.digest) < rank(d)
  }

  /** The successors of a source node that are not at the destination yet. */
  function Missing(codec: Codec, src: ContentMap, content: ContentMap, d: Digest): set<Digest>
    requires d in src
  {
    set s | s in codec.successors(src[d]) && s.digest !in content :: s.digest
  }

  /** A node under way has something to do: start a missing successor, or be written once none is missing. */
  predicate CanProceed(codec: Codec, src: ContentMap, content: ContentMap, open: set<Digest>, d: Digest)
    requires d in src
  {
    Missing(codec, src, content, d) == {} || Missing(codec, src, content, d) - open != {}
  }

  lemma {:induction false} SomeNodeProceeds(codec: Codec, src: ContentMap, content: ContentMap, open: set<Digest>,
                                            rank: Digest -> nat, d: Digest)
    requires Ranked(codec, src, rank) && open <= src.Keys && d in open
    ensures exists e :: e in open && CanProceed(codec, src, content, open, e)
    decreases rank(d)
  {
    if !CanProceed(codec, src, content, open, d) {
      var missing := Missing(codec, src, content, d);
      var x :| x in missing;
      assert missing - open == {} && x !in missing - open;
      SomeNodeProceeds(codec, src, content, open, rank, x);
    }
  }

  lemma RootNeeded(codec: Codec, src: ContentMap, root: Digest)
    ensures Needed(codec, src, root, root)
  {
  }

  lemma SuccessorNeeded(codec: Codec, src: ContentMap, root: Digest, d: Digest, s: Descriptor)
    requires Needed(codec, src, root, d) && SourceHas(codec, src, d) && s in codec.successors(src[d])
    ensures Needed(codec, src, root, s.digest)
  {
    forall digests: set<Digest> | root in digests && ClosedInSource(codec, src, digests) ensures s.digest in digests {
      assert d in digests;
      assert SuccessorsIn(codec, src[d], digests);
    }
  }

  lemma WriteKeepsClosed(codec: Codec, content: ContentMap, d: Digest, data: Bytes)
    requires SoundContent(codec, content)
    requires codec.hash(data) == d && SuccessorsIn(codec, data, content.Keys)
    ensures Addressed(codec, content[d := data]) && Closed(codec, content[d := data])
  {
    var after := content[d := data];
    forall x | x in after ensures SuccessorsIn(codec, after[x], after.Keys) {
      if x != d {
        assert SuccessorsIn(codec, content[x], content.Keys);
      }
    }
  }

  /** What copying may add: nodes of the source graph, as they are at the source. */
  ghost predicate CopiedFrom(codec: Codec, src: ContentMap, root: Digest, before: ContentMap, after: ContentMap) {
    && (forall d :: d in before ==> d in after && after[d] == before[d])
    && (forall d :: d in after && d !in before ==>
          SourceHas(codec, src, d) && after[d] == src[d] && Needed(codec, src, root, d))
  }

  /** Nodes under way: needed, readable at the source, and not written yet; the root is one until it is written. */
  ghost predicate UnderWay(codec: Codec, src: ContentMap, content: ContentMap, root: Digest, open: set<Digest>) {
    && (forall d :: d in open ==> SourceHas(codec, src, d) && Needed(codec, src, root, d) && d !in content)
    && (root in open || root in content)
  }

  ghost predicate SoundContent(codec: Codec, content: ContentMap) {
    Addressed(codec, content) && Closed(codec, content)
  }

  lemma StartKeepsUnderWay(codec: Codec, src: ContentMap, content: ContentMap, root: Digest, open: set<Digest>,
                           d: Digest, next: Digest)
    requires UnderWay(codec, src, content, root, open) && d in open && next in Missing(codec, src, content, d)
    ensures Needed(codec, src, root, next)
    ensures SourceHas(codec, src, next) ==> UnderWay(codec, src, content, root, open + {next})
  {
    var s :| s in codec.successors(src[d]) && s.digest == next;
    SuccessorNeeded(codec, src, root, d, s);
  }

  lemma MissingOrStored(codec: Codec, src: ContentMap, content: ContentMap, d: Digest, s: Descriptor)
    requires d in src && s in codec.successors(src[d])
    ensures s.digest in content || s.digest in Missing(codec, src, content, d)
  {
  }

  lemma WriteKeepsUnderWay(codec: Codec, src: ContentMap, before: ContentMap, content: ContentMap, root: Digest,
                           open: set<Digest>, d: Digest)
    requires UnderWay(codec, src, content, root, open) && d in open && Missing(codec, src, content, d) == {}
    requires SoundContent(codec, content) && CopiedFrom(codec, src, root, before, content)
    ensures UnderWay(codec, src, content[d := src[d]], root, open - {d})
    ensures SoundContent(codec, content[d := src[d]]) && CopiedFrom(codec, src, root, before, content[d := src[d]])
  {
    assert SuccessorsIn(codec, src[d], content.Keys) by {
      forall s: Descriptor | s in codec.successors(src[d]) ensures s.digest in content {
        MissingOrStored(codec, src, content, d, s);
      }
    }
    WriteKeepsClosed(codec, content, d, src[d]);
  }

  /** Copies what the destination lacks. Nodes proceed in any order, several at a time; one is written when all its
      successors are there, and what is there already is not looked into. */
  method CopyGraph(src: ContentMap, dst: Repository, root: Digest, ghost rank: Digest -> nat)
    returns (error: Option<TransferError>)
    requires Ranked(dst.codec, src, rank) && SoundContent(dst.codec, dst.content)
    modifies dst`content, dst`writesLeft
    ensures SoundContent(dst.codec, dst.content)
    ensures CopiedFrom(dst.codec, src, root, old(dst.content), dst.content)
    ensures error.None? ==> root in dst.content
    ensures match error
            case Some(CopyGraphFailed(d)) => !SourceHas(dst.codec, src, d) && Needed(dst.codec, src, root, d)
            case Some(e) => e == CutOff && dst.writesLeft == 0
            case None => true
  {
    RootNeeded(dst.codec, src, root);
    if root in dst.content {
      return None;
    }
    if !SourceHas(dst.codec, src, root) {
      return Some(CopyGraphFailed(root));
    }
    var open := {root};
    while open != {}
      invariant UnderWay(dst.codec, src, dst.content, root, open)
      invariant SoundContent(dst.codec, dst.content)
      invariant CopiedFrom(dst.codec, src, root, old(dst.content), dst.content)
      decreases src.Keys - dst.content.Keys, src.Keys - open
    {
      ghost var some :| some in open;
      SomeNodeProceeds(dst.codec, src, dst.content, open, rank, some);
      var d :| d in open && CanProceed(dst.codec, src, dst.content, open, d);
      var waiting := Missing(dst.codec, src, dst.content, d) - open;
      if waiting != {} {
        var next :| next in waiting;
        StartKeepsUnderWay(dst.codec, src, dst.content, root, open, d, next);
        if !SourceHas(dst.codec, src, next) {
          return Some(CopyGraphFailed(next));
        }
        open := open + {next};
      } else {
        WriteKeepsUnderWay(dst.codec, src, old(dst.content), dst.content, root, open, d);
        var ok := dst.Push(d, src[d]);
        if !ok {
          return Some(CutOff);
        }
        open := open - {d};
      }
    }
    return None;
  }

  /** A stored root stands for its whole source graph, byte for byte. */
  lemma WholeGraphThere(codec: Codec, src: ContentMap, content: ContentMap, root: Digest, d: Digest)
    requires Faithful(codec) && SoundContent(codec, content)
    requires root in content && Needed(codec, src, root, d)
    ensures d in content && (SourceHas(codec, src, d) ==> content[d] == src[d])
  {
    forall x | x in content && SourceHas(codec, src, x)
      ensures content[x] == src[x] && SuccessorsIn(codec, src[x], content.Keys) {
      assert codec.hash(content[x]) == codec.hash(src[x]);
      assert SuccessorsIn(codec, content[x], content.Keys);
    }
    assert ClosedInSource(codec, src, content.Keys);
  }

  // The push.

  /** Singleton evidence, never replaced: the same again is accepted, anything else is refused. */
  method PublishBundleSignature(target: Repository, subject: Digest, evidence: Bytes)
    returns (error: Option<TransferError>)
    modifies target`signatures, target`writesLeft
    ensures error.None? ==> target.signatures == old(target.signatures)[subject := evidence]
    ensures error.None? && subject in old(target.signatures) ==> old(target.signatures)[subject] == evidence
    ensures error.Some? ==> target.signatures == old(target.signatures)
    ensures error == Some(SignatureExists)
       <==> subject in old(target.signatures) && old(target.signatures)[subject] != evidence
    ensures error.Some? && error.value != SignatureExists ==> error.value == CutOff && target.writesLeft == 0
  {
    if subject in target.signatures {
      if target.signatures[subject] == evidence {
        assert target.signatures == target.signatures[subject := evidence];
        return None;
      }
      return Some(SignatureExists);
    }
    var ok := target.Sign(subject, evidence);
    return if ok then None else Some(CutOff);
  }

  datatype Reference = TagReference(tag: string) | DigestReference(digest: Digest)

  /** The root at the tag names the child. */
  ghost predicate NamesChild(codec: Codec, content: ContentMap, tags: map<string, Descriptor>, tag: string,
                             child: Descriptor)
  {
    var entries := RootEntries(codec, content, tags, tag);
    entries.Ok? && child in entries.value
  }

  /** The root may be written, tagged or not, when the child and everything preserved is stored. */
  lemma RootWriteKeepsConsistent(codec: Codec, content: ContentMap, tags: map<string, Descriptor>, tag: string,
                                 before: seq<Descriptor>, child: Descriptor, root: MergedRoot)
    requires Faithful(codec) && Consistent(codec, content, tags) && RootOf(codec, root)
    requires Merges(before, child, root.entries) && child.digest in content && AllStored(content, before)
    ensures var written := content[root.desc.digest := root.data];
            && Consistent(codec, written, tags) && CopiedOver(content, written)
            && Consistent(codec, written, tags[tag := root.desc])
            && TagHolds(codec, written, tags[tag := root.desc], tag, root.entries)
  {
    MergedMembers(before, child, root.entries);
    assert codec.successors(root.data) == Index(NoArtifact, root.entries).manifests;
    assert SuccessorsIn(codec, root.data, content.Keys);
    WriteKeepsClosed(codec, content, root.desc.digest, root.data);
    assert content[root.desc.digest := root.data].Keys == content.Keys + {root.desc.digest};
  }

  ghost predicate RootOf(codec: Codec, root: MergedRoot) {
    && root.data == codec.marshal(Index(NoArtifact, root.entries))
    && root.desc.mediaType == ImageIndex && root.desc.digest == codec.hash(root.data) && root.desc.size == |root.data|
  }

  ghost predicate CopiedOver(before: ContentMap, after: ContentMap) {
    forall d :: d in before ==> d in after && after[d] == before[d]
  }

  ghost predicate AllStored(content: ContentMap, entries: seq<Descriptor>) {
    forall m: Descriptor :: m in entries ==> m.digest in content
  }

  lemma CopyKeepsConsistent(codec: Codec, src: ContentMap, root: Digest, before: ContentMap, after: ContentMap,
                            tags: map<string, Descriptor>, entries: seq<Descriptor>)
    requires Consistent(codec, before, tags) && AllStored(before, entries)
    requires SoundContent(codec, after) && CopiedFrom(codec, src, root, before, after)
    ensures Consistent(codec, after, tags) && AllStored(after, entries) && CopiedOver(before, after)
  {
  }

  lemma ExistingEntriesStored(codec: Codec, content: ContentMap, tags: map<string, Descriptor>, tag: string)
    requires Faithful(codec) && Consistent(codec, content, tags) && RootEntries(codec, content, tags, tag).Ok?
    ensures AllStored(content, RootEntries(codec, content, tags, tag).value)
  {
    if tag in tags {
      assert ListsItsManifests(codec, content[tags[tag].digest]);
      assert SuccessorsIn(codec, content[tags[tag].digest], content.Keys);
    }
  }

  /** The tag holds the merged root, and the child and the evidence it was pushed with are there. */
  ghost predicate Pushed(codec: Codec, oldContent: ContentMap, oldTags: map<string, Descriptor>, content: ContentMap,
                         tags: map<string, Descriptor>, signatures: map<Digest, Bytes>,
                         tag: string, child: Descriptor, signature: Option<Bytes>)
  {
    var before := RootEntries(codec, oldContent, oldTags, tag);
    && before.Ok? && tag in tags && tags == oldTags[tag := tags[tag]]
    && (exists after :: Merges(before.value, child, after) && TagHolds(codec, content, tags, tag, after))
    && (child.mediaType == ImageIndex && child.artifactType == Bundle && child.platform.Some?
        && child.platform.value.architecture != "" ==>
          RootPublished(codec, oldContent, oldTags, content, tags, tag, child))
    && child.digest in content && Evidenced(signatures, child, signature)
  }

  ghost predicate Evidenced(signatures: map<Digest, Bytes>, child: Descriptor, signature: Option<Bytes>) {
    signature.Some? ==> child.digest in signatures && signatures[child.digest] == signature.value
  }

  /** Each error has its cause, seen from before the push and the writes that were left after it. */
  ghost predicate Explained(codec: Codec, src: ContentMap, content: ContentMap, tags: map<string, Descriptor>,
                            signatures: map<Digest, Bytes>, writesLeft: nat, reference: Reference, child: Descriptor,
                            signature: Option<Bytes>, error: TransferError)
  {
    || (error == PushTagRequired && reference.DigestReference?)
    || TransferExplained(codec, src, signatures, writesLeft, child, signature, error)
    || (reference.TagReference? && RootEntries(codec, content, tags, reference.tag) == Err(error))
  }

  ghost predicate TransferExplained(codec: Codec, src: ContentMap, signatures: map<Digest, Bytes>, writesLeft: nat,
                                    child: Descriptor, signature: Option<Bytes>, error: TransferError)
  {
    match error
    case CutOff => writesLeft == 0
    case SignatureExists =>
      signature.Some? && child.digest in signatures && signatures[child.digest] != signature.value
    case CopyGraphFailed(d) => !SourceHas(codec, src, d) && Needed(codec, src, child.digest, d)
    case _ => false
  }

  /** Nothing that was published is withdrawn or replaced. */
  ghost predicate SignaturesKept(before: map<Digest, Bytes>, after: map<Digest, Bytes>, child: Descriptor,
                                 signature: Option<Bytes>)
  {
    after == before || (signature.Some? && after == before[child.digest := signature.value])
  }

  /** More content does not change what a tag reads as. */
  lemma TagReadsTheSame(codec: Codec, before: ContentMap, after: ContentMap, tags: map<string, Descriptor>, tag: string)
    requires Consistent(codec, before, tags) && CopiedOver(before, after)
    ensures RootEntries(codec, after, tags, tag) == RootEntries(codec, before, tags, tag)
  {
  }

  /** Publishes a merged root whose entries are all stored. */
  method PublishRoot(dst: Repository, child: Descriptor, tag: string, root: MergedRoot, ghost before: seq<Descriptor>)
    returns (error: Option<TransferError>)
    requires Faithful(dst.codec) && Consistent(dst.codec, dst.content, dst.tags) && RootOf(dst.codec, root)
    requires Merges(before, child, root.entries) && child.digest in dst.content && AllStored(dst.content, before)
    modifies dst`content, dst`tags, dst`writesLeft
    ensures Consistent(dst.codec, dst.content, dst.tags) && CopiedOver(old(dst.content), dst.content)
    ensures error.Some? ==> dst.tags == old(dst.tags) && error.value == CutOff && dst.writesLeft == 0
    ensures error.Some? ==>
      RootEntries(dst.codec, dst.content, dst.tags, tag) == RootEntries(dst.codec, old(dst.content), dst.tags, tag)
    ensures error.None? ==>
      dst.tags == old(dst.tags)[tag := root.desc] && TagHolds(dst.codec, dst.content, dst.tags, tag, root.entries)
  {
    RootWriteKeepsConsistent(dst.codec, dst.content, dst.tags, tag, before, child, root);
    var ok := dst.PushReferenceBytes(root.desc, root.data, tag);
    if !ok {
      TagReadsTheSame(dst.codec, old(dst.content), dst.content, dst.tags, tag);
      return Some(CutOff);
    }
    return None;
  }

  /** The writes of a push, in order: the child's graph, its evidence, the root. */
  method TransferAndPublish(src: ContentMap, dst: Repository, child: Descriptor, tag: string, root: MergedRoot,
                            ghost before: seq<Descriptor>, signature: Option<Bytes>, ghost rank: Digest -> nat)
    returns (error: Option<TransferError>)
    requires Faithful(dst.codec) && Ranked(dst.codec, src, rank) && Consistent(dst.codec, dst.content, dst.tags)
    requires RootEntries(dst.codec, dst.content, dst.tags, tag) == Ok(before) && Merges(before, child, root.entries)
    requires RootOf(dst.codec, root)
    modifies dst
    ensures Consistent(dst.codec, dst.content, dst.tags) && CopiedOver(old(dst.content), dst.content)
    ensures SignaturesKept(old(dst.signatures), dst.signatures, child, signature)
    ensures error.Some? ==>
      dst.tags == old(dst.tags) && RootEntries(dst.codec, dst.content, dst.tags, tag) == Ok(before)
    ensures error.None? ==>
      && child.digest in dst.content && Evidenced(dst.signatures, child, signature)
      && dst.tags == old(dst.tags)[tag := root.desc] && TagHolds(dst.codec, dst.content, dst.tags, tag, root.entries)
    ensures error.Some? ==>
      TransferExplained(dst.codec, src, old(dst.signatures), dst.writesLeft, child, signature, error.value)
  {
    ExistingEntriesStored(dst.codec, dst.content, dst.tags, tag);
    error := CopyGraph(src, dst, child.digest, rank);
    CopyKeepsConsistent(dst.codec, src, child.digest, old(dst.content), dst.content, dst.tags, before);
    TagReadsTheSame(dst.codec, old(dst.content), dst.content, dst.tags, tag);
    if error.Some? {
      return;
    }
    if signature.Some? {
      error := PublishBundleSignature(dst, child.digest, signature.value);
      if error.Some? {
        return;
      }
    }
    error := PublishRoot(dst, child, tag, root, before);
  }

  /** A pushed bundle reads back, byte for byte as it was at the source, exactly when the new root and the child's index
      are small enough to be fetched. */
  lemma PushReadsBack(codec: Codec, src: ContentMap, oldContent: ContentMap, oldTags: map<string, Descriptor>,
                      content: ContentMap, tags: map<string, Descriptor>, signatures: map<Digest, Bytes>,
                      tag: string, child: Descriptor, signature: Option<Bytes>)
    requires Faithful(codec) && IsBundleChild(child) && StoredBundle(codec, src, child) && Addressed(codec, content)
    requires Pushed(codec, oldContent, oldTags, content, tags, signatures, tag, child, signature)
    ensures Child(codec, content, tags, tag, ArchitectureOf(child)) == Ok((child, src[child.digest]))
       <==> tags[tag].size <= MAX_FETCH_BYTES && child.size <= MAX_FETCH_BYTES
  {
    var before := RootEntries(codec, oldContent, oldTags, tag).value;
    var after :| Merges(before, child, after) && TagHolds(codec, content, tags, tag, after);
    assert codec.hash(content[child.digest]) == codec.hash(src[child.digest]);
    PushedChildResolves(codec, content, tags, tag, before, child, after);
  }

  /** A merge that gives the root already at the tag, digest for digest, leaves nothing to publish. */
  lemma SameRootHolds(codec: Codec, content: ContentMap, tags: map<string, Descriptor>, tag: string, root: MergedRoot)
    requires Faithful(codec) && RootOf(codec, root) && RootEntries(codec, content, tags, tag).Ok?
    requires tag in tags && tags[tag].digest == root.desc.digest
    ensures TagHolds(codec, content, tags, tag, root.entries) && tags == tags[tag := tags[tag]]
  {
  }

  lemma PushCompletes(codec: Codec, oldContent: ContentMap, oldTags: map<string, Descriptor>, content: ContentMap,
                      tags: map<string, Descriptor>, signatures: map<Digest, Bytes>,
                      tag: string, child: Descriptor, signature: Option<Bytes>, root: MergedRoot)
    requires Faithful(codec) && RootEntries(codec, oldContent, oldTags, tag).Ok?
    requires Merges(RootEntries(codec, oldContent, oldTags, tag).value, child, root.entries)
    requires TagHolds(codec, content, tags, tag, root.entries) && tags == oldTags[tag := tags[tag]]
    requires child.digest in content && Evidenced(signatures, child, signature)
    ensures Pushed(codec, oldContent, oldTags, content, tags, signatures, tag, child, signature)
  {
    if child.mediaType == ImageIndex && child.artifactType == Bundle && child.platform.Some?
       && child.platform.value.architecture != "" {
      RootIsPublished(codec, oldContent, oldTags, content, tags, tag, child, root.entries);
    }
  }

  /** Copies the child's graph, publishes its evidence, then publishes the root that names it. Wherever the writes stop,
      the repository is consistent, keeps all it had, and shows the new root only after all of that. */
  method PushBundleToRemote(src: ContentMap, dst: Repository, child: Descriptor, reference: Reference,
                            signature: Option<Bytes>, ghost rank: Digest -> nat) returns (error: Option<TransferError>)
    requires Faithful(dst.codec) && child.platform.Some? && Ranked(dst.codec, src, rank)
    requires Consistent(dst.codec, dst.content, dst.tags)
    modifies dst
    ensures Consistent(dst.codec, dst.content, dst.tags) && CopiedOver(old(dst.content), dst.content)
    ensures SignaturesKept(old(dst.signatures), dst.signatures, child, signature)
    ensures error.Some? ==> dst.tags == old(dst.tags)
    ensures reference.TagReference? && NamesChild(dst.codec, dst.content, dst.tags, reference.tag, child)
            && !NamesChild(dst.codec, old(dst.content), old(dst.tags), reference.tag, child)
            ==> Evidenced(dst.signatures, child, signature)
    ensures error.None? ==>
      && reference.TagReference?
      && Pushed(dst.codec, old(dst.content), old(dst.tags), dst.content, dst.tags, dst.signatures, reference.tag, child,
                signature)
    ensures error.Some? ==>
      Explained(dst.codec, src, old(dst.content), old(dst.tags), old(dst.signatures), dst.writesLeft, reference, child,
                signature, error.value)
  {
    if reference.DigestReference? {
      return Some(PushTagRequired);
    }
    var tag := reference.tag;
    var merged := MergeRootIndex(dst, tag, child);
    if merged.Err? {
      return Some(merged.error);
    }
    var root := merged.value;
    ghost var before := RootEntries(dst.codec, dst.content, dst.tags, tag).value;
    if root.current.Some? && root.current.value.digest == root.desc.digest {
      if child.digest in dst.content {
        SameRootHolds(dst.codec, dst.content, dst.tags, tag, root);
        error := None;
        if signature.Some? {
          error := PublishBundleSignature(dst, child.digest, signature.value);
        }
        if error.None? {
          PushCompletes(dst.codec, old(dst.content), old(dst.tags), dst.content, dst.tags, dst.signatures, tag, child,
                        signature, root);
        }
        return;
      }
    }
    error := TransferAndPublish(src, dst, child, tag, root, before, signature, rank);
    if error.None? {
      PushCompletes(dst.codec, old(dst.content), old(dst.tags), dst.content, dst.tags, dst.signatures, tag, child,
                    signature, root);
    }
  }
}
