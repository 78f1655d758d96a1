/** The fingerprint of a regular file: what `AnalyzedFile.new` computes
    once from the file's stat data and content. */
module Fingerprints {
  import opened Wrappers
  import opened Paths
  import opened FileSystem
  import opened Timestamps

  /** The two digests of a content, as lower-case hex text. Their
      algorithms (SHA-512, MD5) are not part of this model. */
  datatype Digests = Digests(sha512: string -> string, md5: string -> string)

  /** A file's fingerprint: its absolute path, its size, its modification
      time to the nearest second (seconds since the epoch) and the
      milliseconds past that time's second, and the two digests. */
  datatype AnalyzedFile = AnalyzedFile(
    path: string,
    size: int,
    updatedAt: int,
    millis: int,
    sha512: string,
    md5: string)

  /** The content of the regular file at `p`, links followed. */
  function Content(fs: Fs, p: string): string
    requires IsFile(fs, p)
  {
    Stat(fs, p).value.kind.content
  }

  /** `AnalyzedFile.new(path)`; `None` stands for nil. Nil is refused by
      `File.file?` with a TypeError; a path that does not lead to a regular
      file is an ArgumentError; a file whose content cannot be read stops
      the digest with EACCES. */
  function Analyze(env: Env, path: Option<string>, digests: Digests): (r: Result<AnalyzedFile>)
    ensures path.None? ==> r == Err(TypeError)
    ensures path.Some? ==>
      var abs := AbsolutePath(env.cwd, path.value);
      && (!IsFile(env.fs, abs) ==> r == Err(ArgumentError))
      && (IsFile(env.fs, abs) && !Stat(env.fs, abs).value.kind.readable ==> r == Err(PermissionError))
      && (r.Ok? <==> IsFile(env.fs, abs) && Stat(env.fs, abs).value.kind.readable)
    ensures r.Ok? ==> path.Some? && r.value.path == AbsolutePath(env.cwd, path.value) && IsNormal(r.value.path) && IsFile(env.fs, r.value.path)
  {
    match path
    case None => Err(TypeError)
    case Some(p) =>
      var abs := AbsolutePath(env.cwd, p);
      AbsoluteIsNormal(env.cwd, p);
      if !IsFile(env.fs, abs) then Err(ArgumentError)
      else
        var node := Stat(env.fs, abs).value;
        if !node.kind.readable then Err(PermissionError)
        else Ok(AnalyzedFile(
          abs,
          node.size,
          RoundToSecond(node.mtime),
          SubsecMillis(node.mtime),
          digests.sha512(node.kind.content),
          digests.md5(node.kind.content)))
  }

  /** The fingerprint of a file that can be analysed: its stat size, its
      time to the nearest second and the nearest millisecond past that
      second, and the digests of its content. */
  lemma AnalyzeFingerprint(env: Env, p: string, digests: Digests)
    requires Analyze(env, Some(p), digests).Ok?
    ensures var f := Analyze(env, Some(p), digests).value;
      var node := Stat(env.fs, f.path).value;
      && f.size == node.size
      // the nearest whole second, a half rounding up
      && f.updatedAt * NANOS_PER_SECOND - NANOS_PER_SECOND / 2 <= node.mtime < f.updatedAt * NANOS_PER_SECOND + NANOS_PER_SECOND / 2
      // the nearest millisecond of the part past the second, 0 to 1000
      && 0 <= f.millis <= 1000
      && f.millis * NANOS_PER_MILLI - NANOS_PER_MILLI / 2 <= Subsec(node.mtime) < f.millis * NANOS_PER_MILLI + NANOS_PER_MILLI / 2
      && f.sha512 == digests.sha512(node.kind.content) && f.md5 == digests.md5(node.kind.content)
  {
  }

  /** Two files with the same content get the same digests, wherever they
      are: this is what makes equal fingerprints the mark of a copy. */
  lemma SameContentSameDigests(env: Env, p: string, q: string, digests: Digests)
    requires Analyze(env, Some(p), digests).Ok? && Analyze(env, Some(q), digests).Ok?
    requires Content(env.fs, AbsolutePath(env.cwd, p)) == Content(env.fs, AbsolutePath(env.cwd, q))
    ensures Analyze(env, Some(p), digests).value.sha512 == Analyze(env, Some(q), digests).value.sha512
    ensures Analyze(env, Some(p), digests).value.md5 == Analyze(env, Some(q), digests).value.md5
  {
  }

  /** Analysing a path or its absolute form gives the same fingerprint. */
  lemma AnalyzeAbsolute(env: Env, p: string, digests: Digests)
    ensures Analyze(env, Some(AbsolutePath(env.cwd, p)), digests) == Analyze(env, Some(p), digests)
  {
    AbsolutePathIdempotent(env.cwd, env.cwd, p);
  }
}
