/** Content descriptors of the OCI Image Format Specification, section "OCI Content Descriptors". */
module Oci {
  import opened Wrappers

  type Digest = string
  type Bytes = string

  /** Stored content by digest. */
  type ContentMap = map<Digest, Bytes>

  /** The first five are the manifest-like types whose bytes list successors. */
  datatype MediaType =
    | ImageManifest | ImageIndex | ArtifactManifest | DockerManifest | DockerManifestList
    | OtherType(name: string)

  datatype ArtifactType = NoArtifact | Bundle | OtherArtifact(name: string)

  datatype Platform = Platform(architecture: string, os: string)

  datatype Descriptor =
    Descriptor(mediaType: MediaType, digest: Digest, size: int, artifactType: ArtifactType, platform: Option<Platform>)
}
