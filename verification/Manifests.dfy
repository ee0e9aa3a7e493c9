/** The cache-tier manifest (`edda-cache/src/manifest.rs`).

    Timestamps are opaque integers, hashes opaque strings. A path is the list of
    its components below the project root. */
module Manifests {
  import opened Bytes

  type Name = Str

  type Hash = Str

  type Path = seq<Str>

  datatype Tier = Repo | Cache

  datatype ArtifactEntry = ArtifactEntry(
    path: Path,
    hash: Hash,
    shortName: Name,
    tier: Tier,
    nestedDeps: seq<Name>,
    generatedAt: int)

  datatype Manifest = Manifest(
    schemaVersion: nat,
    project: Str,
    generatedAt: int,
    lastGcRun: Option<int>,
    artifacts: seq<ArtifactEntry>)
}
