/** The filesystem the core consults, as a finite map from absolute path
    to the node stored there. Queries are functions of the map, so a run
    sees no concurrent change. */
module FileSystem {
  import opened Wrappers
  import opened Paths

  /** The kind of a node, with what each kind holds. */
  datatype Kind =
    | RegularFile(content: string, readable: bool)
    | Directory(entries: seq<string>, listable: bool)  // entry names in the order `Dir.glob` yields them
    | Symlink(target: string)
    | Special                                          // device, socket, pipe

  /** What `File.stat` reports: the size in bytes and the modification time
      in nanoseconds since the epoch. */
  datatype Node = Node(kind: Kind, size: int, mtime: int)

  type Fs = map<string, Node>

  /** A process's view: its working directory and the filesystem. */
  datatype Env = Env(cwd: string, fs: Fs)

  /** Linux's MAXSYMLINKS: more links than this in a row is ELOOP. */
  const MAX_SYMLINKS: nat := 40

  /** Real directories name their entries with non-empty names that hold
      no slash. */
  predicate WellFormed(fs: Fs) {
    forall p :: p in fs && fs[p].kind.Directory? ==>
      forall i :: 0 <= i < |fs[p].kind.entries| ==>
        fs[p].kind.entries[i] != [] && '/' !in fs[p].kind.entries[i]
  }

  /** The node a path leads to once symbolic links are followed, at most
      `hops` of them; a link target is read relative to the link's
      directory. */
  function Follow(fs: Fs, p: string, hops: nat): (r: Option<Node>)
    ensures r.Some? ==> !r.value.kind.Symlink?
    decreases hops
  {
    if p !in fs then None
    else match fs[p].kind
      case Symlink(target) =>
        if hops == 0 then None else Follow(fs, AbsolutePath(Parent(p), target), hops - 1)
      case _ => Some(fs[p])
  }

  /** `File.stat(p)` for an absolute path; None stands for ENOENT and ELOOP. */
  function Stat(fs: Fs, p: string): Option<Node> {
    Follow(fs, p, MAX_SYMLINKS)
  }

  predicate Exists(fs: Fs, p: string) { Stat(fs, p).Some? }

  /** `File.file?`: a regular file, after following links. */
  predicate IsFile(fs: Fs, p: string) {
    Stat(fs, p).Some? && Stat(fs, p).value.kind.RegularFile?
  }

  /** `File.directory?`: a directory, after following links. */
  predicate IsDirectory(fs: Fs, p: string) {
    Stat(fs, p).Some? && Stat(fs, p).value.kind.Directory?
  }

  /** `File.symlink?`: the path itself is a link (`lstat`). */
  predicate IsSymlink(fs: Fs, p: string) {
    p in fs && fs[p].kind.Symlink?
  }

  /** A node that is not a link is its own stat. */
  lemma StatOfNonLink(fs: Fs, p: string)
    requires p in fs && !fs[p].kind.Symlink?
    ensures Stat(fs, p) == Some(fs[p])
  {
  }
}
