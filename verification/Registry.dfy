/** A registry repository as the OCI transfers see it: content by digest, tags and signature evidence. */
module Registry {
  import opened Wrappers
  import opened Oci

  datatype Index = Index(artifactType: ArtifactType, manifests: seq<Descriptor>)

  /** JSON encoding of indexes, the successors that content lists, and content addressing. */
  datatype Codec = Codec(marshal: Index -> Bytes, unmarshal: Bytes -> Option<Index>,
                         successors: Bytes -> seq<Descriptor>, hash: Bytes -> Digest)

  ghost predicate ListsItsManifests(codec: Codec, data: Bytes) {
    codec.unmarshal(data).Some? ==>
      forall m :: m in codec.unmarshal(data).value.manifests ==> m in codec.successors(data)
  }

  /** Encoding loses nothing, digests do not collide, and the manifests of an index are its successors. */
  ghost predicate Faithful(codec: Codec) {
    && (forall i :: codec.unmarshal(codec.marshal(i)) == Some(i) && codec.successors(codec.marshal(i)) == i.manifests)
    && (forall a, b :: codec.hash(a) == codec.hash(b) ==> a == b)
    && (forall data :: ListsItsManifests(codec, data))
  }

  const MAX_FETCH_BYTES: int := 16 * 1024 * 1024

  datatype TransferError =
    | DescriptorTooLarge(digest: Digest) | FetchContent(digest: Digest) | ResolveReference(reference: string)
    | ParseExistingContent(reference: string) | InvalidBundle | ArchitectureUnavailable(available: seq<string>)
    | PushTagRequired | CopyGraphFailed(digest: Digest) | SignatureExists | CutOff

  /** The bytes a descriptor names, if they are small enough to buffer and are what the descriptor says. */
  function FetchBytes(codec: Codec, content: ContentMap, d: Descriptor): Result<Bytes, TransferError> {
    if d.size > MAX_FETCH_BYTES then Err(DescriptorTooLarge(d.digest))
    else if d.digest in content && |content[d.digest]| == d.size && codec.hash(content[d.digest]) == d.digest
    then Ok(content[d.digest])
    else Err(FetchContent(d.digest))
  }

  /** The descriptor of an index with these bytes. */
  function IndexDescriptor(codec: Codec, data: Bytes): Descriptor {
    Descriptor(ImageIndex, codec.hash(data), |data|, NoArtifact, None)
  }

  /** A repository whose connection is lost after some number of further writes. */
  class Repository {
    const codec: Codec
    const tagsOnPush: bool
    var content: ContentMap
    var tags: map<string, Descriptor>
    var signatures: map<Digest, Bytes>
    var writesLeft: nat

    constructor (codec: Codec, tagsOnPush: bool, content: ContentMap, tags: map<string, Descriptor>,
                 signatures: map<Digest, Bytes>, writesLeft: nat)
      ensures this.codec == codec && this.tagsOnPush == tagsOnPush && this.content == content
      ensures this.tags == tags && this.signatures == signatures && this.writesLeft == writesLeft
    {
      this.codec, this.tagsOnPush, this.content := codec, tagsOnPush, content;
      this.tags, this.signatures, this.writesLeft := tags, signatures, writesLeft;
    }

    method Push(digest: Digest, data: Bytes) returns (ok: bool)
      modifies `content, `writesLeft
      ensures ok <==> old(writesLeft) > 0
      ensures ok ==> writesLeft == old(writesLeft) - 1 && content == old(content)[digest := data]
      ensures !ok ==> writesLeft == old(writesLeft) && content == old(content)
    {
      ok := writesLeft > 0;
      if ok {
        content, writesLeft := content[digest := data], writesLeft - 1;
      }
    }

    method Tag(desc: Descriptor, reference: string) returns (ok: bool)
      modifies `tags, `writesLeft
      ensures ok <==> old(writesLeft) > 0
      ensures ok ==> writesLeft == old(writesLeft) - 1 && tags == old(tags)[reference := desc]
      ensures !ok ==> writesLeft == old(writesLeft) && tags == old(tags)
    {
      ok := writesLeft > 0;
      if ok {
        tags, writesLeft := tags[reference := desc], writesLeft - 1;
      }
    }

    method Sign(subject: Digest, evidence: Bytes) returns (ok: bool)
      modifies `signatures, `writesLeft
      ensures ok <==> old(writesLeft) > 0
      ensures ok ==> writesLeft == old(writesLeft) - 1 && signatures == old(signatures)[subject := evidence]
      ensures !ok ==> writesLeft == old(writesLeft) && signatures == old(signatures)
    {
      ok := writesLeft > 0;
      if ok {
        signatures, writesLeft := signatures[subject := evidence], writesLeft - 1;
      }
    }

    /** A repository that can push and tag at once does so in one write; any other takes two, the tag last. */
    method PushReferenceBytes(desc: Descriptor, data: Bytes, reference: string) returns (ok: bool)
      modifies `content, `tags, `writesLeft
      ensures ok <==> old(writesLeft) >= if tagsOnPush then 1 else 2
      ensures ok ==> tags == old(tags)[reference := desc] && content == old(content)[desc.digest := data]
      ensures !ok ==> tags == old(tags) && writesLeft == 0
      ensures !ok ==> content == old(content) || content == old(content)[desc.digest := data]
    {
      if tagsOnPush {
        ok := writesLeft > 0;
        if ok {
          content, tags, writesLeft := content[desc.digest := data], tags[reference := desc], writesLeft - 1;
        }
        return;
      }
      ok := Push(desc.digest, data);
      if ok {
        ok := Tag(desc, reference);
      }
    }
  }
}
