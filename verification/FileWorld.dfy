/** Files and what the file system tells of them without reading them. The inventory
    caches of the desktop shell and of the pipeline rest on the same hypothesis. */
module FileWorld {
  import opened Wrappers

  type Bytes = seq<bv8>

  datatype Snapshot = Snapshot(canonicalPath: string, size: nat, mtime: Option<nat>, identity: Option<int>)

  /** A regular file; `readable` is false when opening it for reading fails. */
  datatype FileState = FileState(canonicalPath: string, mtime: Option<nat>, identity: Option<int>,
                                 content: Bytes, readable: bool)

  /** The files of a directory tree by path. */
  type Files = map<string, FileState>

  function SnapshotOf(file: FileState): Snapshot {
    Snapshot(file.canonicalPath, |file.content|, file.mtime, file.identity)
  }

  /** What a file with a given snapshot contains, at any time. */
  type World = Snapshot -> Bytes

  /** Files of equal snapshots with an identity have equal content. */
  ghost predicate Consistent(world: World, files: Files) {
    forall p :: p in files && files[p].identity.Some? ==> files[p].content == world(SnapshotOf(files[p]))
  }
}
