/** `Detector#execute`: locate the files named on the command line, bring
    the cache up to date with them, and gather the groups of copies that
    are handed to the handler. */
module Pipeline {
  import opened Wrappers
  import opened Ordering
  import opened Paths
  import opened FileSystem
  import opened Fingerprints
  import opened Records
  import opened Store
  import opened Traversal

  /** The options `execute` reads: the paths given, `-r` and `-a`. */
  datatype Options = Options(paths: seq<string>, recursive: bool, includeAll: bool)

  /** How a run ends: with the help text when no path was given, or with
      the groups of copies passed to `Handler.new`. */
  datatype Outcome = Help | Handed(groups: seq<seq<string>>)

  /** `recursive: (@options.recursive ? true : 1)`: always truthy, and
      `true` only with `-r`. */
  function RootFlag(recursive: bool): (r: RubyValue)
    ensures r.Truthy()
    ensures r == TrueValue <==> recursive
  {
    if recursive then TrueValue else IntValue(1)
  }

  /** What the walks from the given roots collect, root after root. */
  function Walks(env: Env, roots: seq<string>, flag: RubyValue, includeAll: bool): (r: seq<string>)
    requires WellFormed(env.fs)
    ensures forall i :: 0 <= i < |r| ==> Reached(env.fs, r[i])
  {
    if roots == [] then []
    else
      var init, last := roots[..|roots| - 1], roots[|roots| - 1];
      WalkCollects(env, last, flag, includeAll);
      Walks(env, init, flag, includeAll) + Walk(env, last, flag, includeAll)
  }

  lemma WalksStep(env: Env, roots: seq<string>, i: nat, flag: RubyValue, includeAll: bool)
    requires WellFormed(env.fs) && i < |roots|
    ensures Walks(env, roots[..i + 1], flag, includeAll)
            == Walks(env, roots[..i], flag, includeAll) + Walk(env, roots[i], flag, includeAll)
  {
    var p := roots[..i + 1];
    assert p[..|p| - 1] == roots[..i] && p[|p| - 1] == roots[i];
  }

  /** `locate_files` on a fresh directory: every root walked, then tidied. */
  function Located(env: Env, options: Options): (r: seq<string>)
    requires WellFormed(env.fs)
    ensures StrictlySorted(r, Less) && Distinct(r)
    ensures forall i :: 0 <= i < |r| ==> Reached(env.fs, r[i])
  {
    var walked := Walks(env, options.paths, RootFlag(options.recursive), options.includeAll);
    var r := Tidied(walked);
    StrictlySortedDistinct(r);
    assert forall i :: 0 <= i < |r| ==> r[i] in walked;
    r
  }

  /** No repeats in a strictly ascending list of paths. */
  lemma StrictlySortedDistinct(s: seq<string>)
    requires StrictlySorted(s, Less)
    ensures Distinct(s)
  {
    forall i, j | 0 <= i < j < |s|
      ensures s[i] != s[j]
    {
      LessIrreflexive(s[i]);
    }
  }

  /** `cached?(path)` on the table `rows`. */
  predicate IsCached(cwd: string, rows: seq<Row>, path: string) {
    AbsolutePath(cwd, path) in CachedPaths(rows)
  }

  /** The located paths that still need analysing: those not cached, in
      their order. */
  function Uncached(cwd: string, files: seq<string>, rows: seq<Row>): (r: seq<string>)
    ensures forall p :: p in r <==> p in files && !IsCached(cwd, rows, p)
  {
    if files == [] then []
    else
      var rest := Uncached(cwd, files[1..], rows);
      assert forall p :: p in files <==> p == files[0] || p in files[1..];
      (if IsCached(cwd, rows, files[0]) then [] else [files[0]]) + rest
  }

  lemma {:induction false} UncachedDistinct(cwd: string, files: seq<string>, rows: seq<Row>)
    requires Distinct(files)
    ensures Distinct(Uncached(cwd, files, rows))
  {
    if files != [] {
      assert Distinct(files[1..]) by {
        assert forall i :: 0 <= i < |files[1..]| ==> files[1..][i] == files[i + 1];
      }
      UncachedDistinct(cwd, files[1..], rows);
      assert files[0] !in files[1..] by {
        assert forall i :: 0 <= i < |files[1..]| ==> files[1..][i] == files[i + 1];
      }
    }
  }

  /** The uncached paths among absolute ones are, as they are, not held
      by any row. */
  lemma UncachedNormal(cwd: string, files: seq<string>, rows: seq<Row>)
    requires forall i :: 0 <= i < |files| ==> IsNormal(files[i])
    ensures var pending := Uncached(cwd, files, rows);
      forall i :: 0 <= i < |pending| ==> IsNormal(pending[i]) && pending[i] !in CachedPaths(rows)
  {
    var pending := Uncached(cwd, files, rows);
    forall i | 0 <= i < |pending|
      ensures IsNormal(pending[i]) && pending[i] !in CachedPaths(rows)
    {
      assert pending[i] in files && !IsCached(cwd, rows, pending[i]);
      NormalIsAbsolute(cwd, pending[i]);
    }
  }

  /** The clone after the loop over `done`: the cached paths among `done`
      are removed from it, the rest stay. */
  function Pending(cwd: string, files: seq<string>, done: seq<string>, rows: seq<Row>): seq<string> {
    if files == [] then []
    else
      (if files[0] in done && IsCached(cwd, rows, files[0]) then [] else [files[0]])
        + Pending(cwd, files[1..], done, rows)
  }

  lemma {:induction false} PendingNone(cwd: string, files: seq<string>, rows: seq<Row>)
    ensures Pending(cwd, files, [], rows) == files
  {
    if files != [] {
      PendingNone(cwd, files[1..], rows);
      assert files == [files[0]] + files[1..];
    }
  }

  /** One more turn of the loop removes the path when it is cached. */
  lemma {:induction false} PendingStep(cwd: string, files: seq<string>, done: seq<string>, p: string, rows: seq<Row>)
    ensures Pending(cwd, files, done + [p], rows)
            == if IsCached(cwd, rows, p) then Removed(Pending(cwd, files, done, rows), p)
               else Pending(cwd, files, done, rows)
  {
    if files != [] {
      PendingStep(cwd, files[1..], done, p, rows);
      var x := files[0];
      var rest := Pending(cwd, files[1..], done, rows);
      var head := if x in done && IsCached(cwd, rows, x) then [] else [x];
      assert Pending(cwd, files, done, rows) == head + rest;
      if IsCached(cwd, rows, p) {
        RemovedConcat(head, rest, p);
        assert Removed([x], p) == (if x == p then [] else [x]) by {
          assert [x][1..] == [];
        }
      }
    }
  }

  /** The turn for the `i`-th path, as the loop takes the paths in order. */
  lemma DropStep(cwd: string, files: seq<string>, i: nat, rows: seq<Row>)
    requires i < |files|
    ensures Pending(cwd, files, files[..i + 1], rows)
            == if IsCached(cwd, rows, files[i]) then Removed(Pending(cwd, files, files[..i], rows), files[i])
               else Pending(cwd, files, files[..i], rows)
  {
    assert files[..i + 1] == files[..i] + [files[i]];
    PendingStep(cwd, files, files[..i], files[i], rows);
  }

  lemma {:induction false} PendingAll(cwd: string, files: seq<string>, done: seq<string>, rows: seq<Row>)
    requires forall i :: 0 <= i < |files| ==> files[i] in done
    ensures Pending(cwd, files, done, rows) == Uncached(cwd, files, rows)
  {
    if files != [] {
      PendingAll(cwd, files[1..], done, rows);
    }
  }

  /** `AnalyzedFile.new` on each path, in order. */
  function Analyses(env: Env, digests: Digests, files: seq<string>): (rs: seq<Result<AnalyzedFile>>)
    ensures |rs| == |files|
  {
    seq(|files|, i requires 0 <= i < |files| => Analyze(env, Some(files[i]), digests))
  }

  /** The position of the first error in a list of results, or its length:
      every analysis before it succeeds, and the one at it fails. */
  function FirstErr<T>(rs: seq<Result<T>>): (k: nat)
    ensures k <= |rs|
    ensures forall i :: 0 <= i < k ==> rs[i].Ok?
    ensures k < |rs| ==> rs[k].Err?
  {
    if rs == [] || rs[0].Err? then 0 else 1 + FirstErr(rs[1..])
  }

  /** The rows `analyze` inserts for successful analyses, with consecutive
      rowids from `firstId`. */
  function Insertions(rs: seq<Result<AnalyzedFile>>, clock: Clock, firstId: int): (rows: seq<Row>)
    requires forall i :: 0 <= i < |rs| ==> rs[i].Ok?
    ensures |rows| == |rs|
    decreases |rs|
  {
    if rs == [] then []
    else
      var n := |rs| - 1;
      Insertions(rs[..n], clock, firstId) + [Insertion(rs[n].value, firstId + n, clock)]
  }

  /** The rows for one more analysis are the rows so far and its own. */
  lemma InsertionsStep(rs: seq<Result<AnalyzedFile>>, i: nat, clock: Clock, firstId: int)
    requires i < |rs| && forall j :: 0 <= j <= i ==> rs[j].Ok?
    ensures Insertions(rs[..i + 1], clock, firstId)
            == Insertions(rs[..i], clock, firstId) + [Insertion(rs[i].value, firstId + i, clock)]
  {
    assert rs[..i + 1][..i] == rs[..i];
  }

  /** An inserted row is cached, and nothing else becomes cached. */
  lemma CachedPathsAppend(rows: seq<Row>, row: Row)
    ensures CachedPaths(rows + [row]) == CachedPaths(rows) + {row.path}
  {
    var all := rows + [row];
    assert all[|rows|] == row;
    forall p | p in CachedPaths(all) ensures p in CachedPaths(rows) + {row.path} {
      var i :| 0 <= i < |all| && all[i].path == p;
      if i < |rows| {
        assert all[i] == rows[i];
      }
    }
    forall p | p in CachedPaths(rows) ensures p in CachedPaths(all) {
      var i :| 0 <= i < |rows| && rows[i].path == p;
      assert all[i] == rows[i];
    }
  }

  /** After a complete analysis every located path is cached: either its
      row survived the purge or `analyze` inserted one. */
  lemma LocatedCached(env: Env, digests: Digests, clock: Clock, located: seq<string>, purged: seq<Row>, pending: seq<string>)
    requires forall i :: 0 <= i < |located| ==> IsNormal(located[i])
    requires pending == Uncached(env.cwd, located, purged)
    requires FirstErr(Analyses(env, digests, pending)) == |pending|
    ensures var rows := purged + Insertions(Analyses(env, digests, pending), clock, NextRowidOr(purged));
      forall i :: 0 <= i < |located| ==> located[i] in CachedPaths(rows)
  {
    var rs := Analyses(env, digests, pending);
    var inserted := Insertions(rs, clock, NextRowidOr(purged));
    var rows := purged + inserted;
    InsertedPaths(rs, clock, NextRowidOr(purged));
    forall i | 0 <= i < |located|
      ensures located[i] in CachedPaths(rows)
    {
      var p := located[i];
      NormalIsAbsolute(env.cwd, p);
      if p in CachedPaths(purged) {
        var j :| 0 <= j < |purged| && purged[j].path == p;
        assert rows[j] == purged[j];
      } else {
        assert p in pending by {
          assert p in located && !IsCached(env.cwd, purged, p);
        }
        var j :| 0 <= j < |pending| && pending[j] == p;
        assert rs[j] == Analyze(env, Some(p), digests);
        assert rows[|purged| + j] == inserted[j];
      }
    }
  }

  /** The `i`-th inserted row holds the path of the `i`-th analysis. */
  lemma {:induction false} InsertedPaths(rs: seq<Result<AnalyzedFile>>, clock: Clock, firstId: int)
    requires forall i :: 0 <= i < |rs| ==> rs[i].Ok?
    ensures forall i :: 0 <= i < |rs| ==> Insertions(rs, clock, firstId)[i].path == rs[i].value.path
    decreases |rs|
  {
    if rs != [] {
      var n := |rs| - 1;
      InsertedPaths(rs[..n], clock, firstId);
      forall i | 0 <= i < n ensures Insertions(rs, clock, firstId)[i].path == rs[i].value.path {
        assert rs[..n][i] == rs[i];
      }
    }
  }

  /** The rowid the next insertion gets, for any table. */
  function NextRowidOr(rows: seq<Row>): (id: int)
    ensures IncreasingIds(rows) ==> id == NextRowid(rows)
  {
    if rows == [] then 1 else rows[|rows| - 1].rowid + 1
  }

  /** `find_copies(path)` on the table `rows`. */
  function CopiesFor(rows: seq<Row>, path: string): seq<string>
    requires path in CachedPaths(rows)
  {
    CopiesOf(rows, SignatureOf(rows[FindRow(rows, path).value]))
  }

  /** `Array#sort` on paths: ascending by `String#<=>`. */
  function SortedPaths(s: seq<string>): (r: seq<string>)
    ensures multiset(r) == multiset(s) && Sorted(r, Less)
  {
    LessIsStrictTotalOrder();
    Sort(s, Less)
  }

  /** The groups the loop over the located paths collects: the sorted
      copies of every path that has more than one. */
  function Groups(rows: seq<Row>, files: seq<string>): seq<seq<string>>
    requires forall i :: 0 <= i < |files| ==> files[i] in CachedPaths(rows)
  {
    if files == [] then []
    else
      var init, last := files[..|files| - 1], files[|files| - 1];
      var copies := CopiesFor(rows, last);
      Groups(rows, init) + (if 1 < |copies| then [SortedPaths(copies)] else [])
  }

  lemma GroupsStep(rows: seq<Row>, files: seq<string>, i: nat)
    requires i < |files| && forall j :: 0 <= j < |files| ==> files[j] in CachedPaths(rows)
    ensures var copies := CopiesFor(rows, files[i]);
      Groups(rows, files[..i + 1])
      == Groups(rows, files[..i]) + (if 1 < |copies| then [SortedPaths(copies)] else [])
  {
    var p := files[..i + 1];
    assert p[..|p| - 1] == files[..i] && p[|p| - 1] == files[i];
  }

  /** Every group is the sorted copies of one of the paths, and there are
      more than one of them. */
  lemma {:induction false} GroupsSound(rows: seq<Row>, files: seq<string>)
    requires forall i :: 0 <= i < |files| ==> files[i] in CachedPaths(rows)
    ensures forall g :: g in Groups(rows, files) ==>
        exists i :: 0 <= i < |files| && 1 < |CopiesFor(rows, files[i])| && g == SortedPaths(CopiesFor(rows, files[i]))
  {
    LessIsStrictTotalOrder();
    if files != [] {
      var init := files[..|files| - 1];
      GroupsSound(rows, init);
      forall g | g in Groups(rows, files)
        ensures exists i :: 0 <= i < |files| && 1 < |CopiesFor(rows, files[i])| && g == SortedPaths(CopiesFor(rows, files[i]))
      {
        if g in Groups(rows, init) {
          var i :| 0 <= i < |init| && 1 < |CopiesFor(rows, init[i])| && g == SortedPaths(CopiesFor(rows, init[i]));
          assert files[i] == init[i];
        } else {
          assert g == SortedPaths(CopiesFor(rows, files[|files| - 1]));
        }
      }
    }
  }

  /** Every path with more than one copy has its group collected. */
  lemma GroupsComplete(rows: seq<Row>, files: seq<string>)
    requires forall i :: 0 <= i < |files| ==> files[i] in CachedPaths(rows)
    ensures forall i :: 0 <= i < |files| && 1 < |CopiesFor(rows, files[i])| ==>
        SortedPaths(CopiesFor(rows, files[i])) in Groups(rows, files)
  {
    assert files[..|files|] == files;
    forall i | 0 <= i < |files| && 1 < |CopiesFor(rows, files[i])|
      ensures SortedPaths(CopiesFor(rows, files[i])) in Groups(rows, files)
    {
      GroupCollected(rows, files, i, |files|);
    }
  }

  /** Once the loop has passed the `i`-th path, the group of that path is
      among the groups collected, when it has more than one copy. */
  lemma {:induction false} GroupCollected(rows: seq<Row>, files: seq<string>, i: nat, m: nat)
    requires forall j :: 0 <= j < |files| ==> files[j] in CachedPaths(rows)
    requires i < m <= |files| && 1 < |CopiesFor(rows, files[i])|
    ensures SortedPaths(CopiesFor(rows, files[i])) in Groups(rows, files[..m])
    decreases m
  {
    GroupsStep(rows, files, m - 1);
    if i < m - 1 {
      GroupCollected(rows, files, i, m - 1);
    }
  }

  /** A group, as `dups.sort` builds it: strictly ascending, holding the
      path it was found for, and exactly the paths whose rows share that
      path's size and digests. */
  lemma GroupShape(rows: seq<Row>, path: string)
    requires UniquePaths(rows) && path in CachedPaths(rows)
    ensures var g := SortedPaths(CopiesFor(rows, path));
      var sig := SignatureOf(rows[FindRow(rows, path).value]);
      && StrictlySorted(g, Less)
      && path in g
      && forall q :: q in g <==> exists i :: 0 <= i < |rows| && rows[i].path == q && SignatureOf(rows[i]) == sig
  {
    LessIsStrictTotalOrder();
    var sig := SignatureOf(rows[FindRow(rows, path).value]);
    var copies := CopiesFor(rows, path);
    var g := SortedPaths(copies);
    CopiesOfMembers(rows, sig);
    CopiesOfDistinct(rows, sig);
    assert forall q :: q in g <==> q in copies by {
      assert forall q :: q in g <==> q in multiset(g);
      assert forall q :: q in copies <==> q in multiset(copies);
    }
    DistinctPermutation(copies, g);
    SortedDistinctIsStrict(g);
  }

  /** A permutation of a list without repeats has none either. */
  lemma DistinctPermutation(s: seq<string>, r: seq<string>)
    requires Distinct(s) && multiset(r) == multiset(s)
    ensures Distinct(r)
  {
    forall i, j | 0 <= i < j < |r|
      ensures r[i] != r[j]
    {
      if r[i] == r[j] {
        var x := r[i];
        assert r == r[..j] + r[j..];
        assert x in r[..j] && x in r[j..];
        assert multiset(r)[x] >= 2 by {
          assert multiset(r) == multiset(r[..j]) + multiset(r[j..]);
        }
        DistinctCount(s, x);
        assert false;
      }
    }
  }

  lemma {:induction false} DistinctCount(s: seq<string>, x: string)
    requires Distinct(s)
    ensures multiset(s)[x] <= 1
  {
    if s != [] {
      assert Distinct(s[1..]) by {
        assert forall i :: 0 <= i < |s[1..]| ==> s[1..][i] == s[i + 1];
      }
      DistinctCount(s[1..], x);
      assert s == [s[0]] + s[1..];
      if s[0] == x {
        assert x !in s[1..] by {
          assert forall i :: 0 <= i < |s[1..]| ==> s[1..][i] == s[i + 1];
        }
      }
    }
  }

  /** Ascending without repeats is strictly ascending. */
  lemma SortedDistinctIsStrict(s: seq<string>)
    requires Sorted(s, Less) && Distinct(s)
    ensures StrictlySorted(s, Less)
  {
    forall i, j | 0 <= i < j < |s|
      ensures Less(s[i], s[j])
    {
      LessTotal(s[i], s[j]);
    }
  }

  /** The row `add` appends for the `i`-th pending path extends the
      insertions by one, and the later paths stay uncached. */
  lemma AddedRow(rs: seq<Result<AnalyzedFile>>, files: seq<string>, clock: Clock, i: nat, firstId: int,
                 before: seq<Row>, rows: seq<Row>)
    requires |rs| == |files| && Distinct(files) && i < |files|
    requires forall j :: 0 <= j <= i ==> rs[j].Ok?
    requires rs[i].value.path == files[i]
    requires IncreasingIds(rows) && NextRowidOr(rows) == firstId + i
    requires rows == before + Insertions(rs[..i], clock, firstId)
    requires forall j :: i <= j < |files| ==> files[j] !in CachedPaths(rows)
    ensures var row := Insertion(rs[i].value, NextRowid(rows), clock);
      && FindRow(rows, rs[i].value.path).None?
      && rows + [row] == before + Insertions(rs[..i + 1], clock, firstId)
      && NextRowidOr(rows + [row]) == firstId + i + 1
      && forall j :: i + 1 <= j < |files| ==> files[j] !in CachedPaths(rows + [row])
  {
    InsertionsStep(rs, i, clock, firstId);
    var row := Insertion(rs[i].value, NextRowid(rows), clock);
    CachedPathsAppend(rows, row);
  }

  /** A detector: the options it was given, the directory it fills and
      the cache it consults. */
  class Detector {
    const options: Options
    const directory: Directory
    const cache: Cache
    /** The digests `AnalyzedFile.new` computes. */
    const digests: Digests

    constructor (options: Options, persisted: seq<Row>, clock: Clock, digests: Digests)
      requires TableInvariant(persisted, clock) && clock.RoundTrip()
      ensures this.options == options && this.digests == digests
      ensures fresh(directory) && fresh(cache)
      ensures directory.files == [] && cache.Valid() && cache.rows == persisted && cache.clock == clock
    {
      this.options := options;
      this.digests := digests;
      directory := new Directory();
      cache := new Cache(persisted, clock);
    }

    /** `execute`, up to `Handler.new(duplicates)`. Without paths the help
        text ends the run. Otherwise the located paths are tidied, the
        cache is purged, the located paths it does not hold are analysed
        and inserted in order (the first file that cannot be analysed
        stops the run), and the groups of copies of the located paths are
        collected, each group once. */
    method Execute(env: Env) returns (r: Result<Outcome>)
      requires WellFormed(env.fs) && cache.Valid() && directory.files == []
      modifies directory, cache
      ensures cache.Valid()
      ensures old(UniquePaths(cache.rows)) ==> UniquePaths(cache.rows)
      ensures options.paths == [] ==> r == Ok(Help) && directory.files == [] && cache.rows == old(cache.rows)
      ensures options.paths != [] ==>
        var located := Located(env, options);
        var purged := Kept(Survives(env, cache.clock), old(cache.rows));
        var pending := Uncached(env.cwd, located, purged);
        var rs := Analyses(env, digests, pending);
        var k := FirstErr(rs);
        && directory.files == located
        && cache.rows == purged + Insertions(rs[..k], cache.clock, NextRowidOr(purged))
        && (k < |pending| ==> r == Err(rs[k].error))
        && (k == |pending| ==>
              && (forall i :: 0 <= i < |located| ==> located[i] in CachedPaths(cache.rows))
              && r == Ok(Handed(Uniq(Groups(cache.rows, located)))))
    {
      if options.paths == [] {
        return Ok(Help);
      }
      LocateFiles(env);
      ghost var located := directory.files;
      ghost var purged := Kept(Survives(env, cache.clock), cache.rows);
      var analyzed := Refresh(env);
      if analyzed.Err? {
        return Err(analyzed.error);
      }
      ghost var pending := Uncached(env.cwd, located, purged);
      ghost var rs := Analyses(env, digests, pending);
      assert rs[..|rs|] == rs;
      LocatedCached(env, digests, cache.clock, located, purged, pending);
      var duplicates := FindDuplicates(directory.files);
      duplicates := Uniq(duplicates);
      return Ok(Handed(duplicates));
    }

    /** The middle of `execute`: the directory is cloned, the cache
        purged, the cached paths dropped from the clone and the rest
        analysed. */
    method Refresh(env: Env) returns (r: Result<()>)
      requires cache.Valid() && Distinct(directory.files)
      requires forall i :: 0 <= i < |directory.files| ==> IsNormal(directory.files[i])
      modifies cache
      ensures cache.Valid()
      ensures old(UniquePaths(cache.rows)) ==> UniquePaths(cache.rows)
      ensures var purged := Kept(Survives(env, cache.clock), old(cache.rows));
        var pending := Uncached(env.cwd, directory.files, purged);
        var rs := Analyses(env, digests, pending);
        var k := FirstErr(rs);
        && cache.rows == purged + Insertions(rs[..k], cache.clock, NextRowidOr(purged))
        && (k < |pending| ==> r == Err(rs[k].error))
        && (k == |pending| ==> r == Ok(()))
    {
      var filesToAnalyze := directory.Clone();
      ghost var offsets := cache.Purge(false, env);
      DropCached(env, filesToAnalyze);
      UncachedDistinct(env.cwd, directory.files, cache.rows);
      UncachedNormal(env.cwd, directory.files, cache.rows);
      r := AnalyzeAll(env, filesToAnalyze);
    }

    /** `locate_files`: adds every path given, with `true` as the flag
        under `-r` and `1` otherwise, then tidies the list. */
    method LocateFiles(env: Env)
      requires WellFormed(env.fs) && directory.files == []
      modifies directory
      ensures directory.files == Located(env, options)
    {
      var flag := RootFlag(options.recursive);
      for i := 0 to |options.paths|
        invariant directory.files == Walks(env, options.paths[..i], flag, options.includeAll)
      {
        AddRoot(env, i, flag);
      }
      assert options.paths[..|options.paths|] == options.paths;
      var self := directory.Tidy();
    }

    /** One turn of the loop over the paths given. */
    method AddRoot(env: Env, i: nat, flag: RubyValue)
      requires WellFormed(env.fs) && i < |options.paths|
      requires directory.files == Walks(env, options.paths[..i], flag, options.includeAll)
      modifies directory
      ensures directory.files == Walks(env, options.paths[..i + 1], flag, options.includeAll)
    {
      WalksStep(env, options.paths, i, flag, options.includeAll);
      directory.Add(env, options.paths[i], flag, options.includeAll);
    }

    /** The loop over the located paths: each one that is cached is removed
        from the clone. */
    method DropCached(env: Env, pending: Directory)
      requires pending != directory && pending.files == directory.files
      modifies pending
      ensures pending.files == Uncached(env.cwd, directory.files, cache.rows)
    {
      PendingNone(env.cwd, directory.files, cache.rows);
      for i := 0 to |directory.files|
        invariant pending.files == Pending(env.cwd, directory.files, directory.files[..i], cache.rows)
      {
        DropOne(env, pending, i);
      }
      PendingAll(env.cwd, directory.files, directory.files[..|directory.files|], cache.rows);
    }

    /** One turn: `files_to_analyze.remove(path) if @cache.cached?(path)`. */
    method DropOne(env: Env, pending: Directory, i: nat)
      requires pending != directory && i < |directory.files|
      requires pending.files == Pending(env.cwd, directory.files, directory.files[..i], cache.rows)
      modifies pending
      ensures pending.files == Pending(env.cwd, directory.files, directory.files[..i + 1], cache.rows)
    {
      var path := directory.files[i];
      DropStep(env.cwd, directory.files, i, cache.rows);
      var cached := cache.Cached(env, path);
      if cached {
        pending.Remove(path);
      }
    }

    /** The state after `analyze` added the first `i` pending paths: their
        rows follow the rows the table had before, with consecutive rowids
        from `firstId`, and the paths still to come are not cached. */
    ghost predicate AddedUpTo(env: Env, files: seq<string>, i: nat, before: seq<Row>, firstId: int)
      reads this, cache
    {
      && cache.Valid()
      && i <= FirstErr(Analyses(env, digests, files))
      && cache.rows == before + Insertions(Analyses(env, digests, files)[..i], cache.clock, firstId)
      && NextRowidOr(cache.rows) == firstId + i
      && (forall j :: i <= j < |files| ==> files[j] !in CachedPaths(cache.rows))
      && (UniquePaths(before) ==> UniquePaths(cache.rows))
    }

    /** `analyze(directory)`: nothing for an empty list; otherwise each
        path is analysed and added in turn, and a file that cannot be
        analysed stops the loop with its error. The paths are distinct,
        absolute and not cached, so no insertion repeats a cached path. */
    method AnalyzeAll(env: Env, pending: Directory) returns (r: Result<()>)
      requires cache.Valid()
      requires Distinct(pending.files)
      requires forall i :: 0 <= i < |pending.files| ==> IsNormal(pending.files[i]) && pending.files[i] !in CachedPaths(cache.rows)
      modifies cache
      ensures cache.Valid()
      ensures old(UniquePaths(cache.rows)) ==> UniquePaths(cache.rows)
      ensures var rs := Analyses(env, digests, pending.files);
        var k := FirstErr(rs);
        && cache.rows == old(cache.rows) + Insertions(rs[..k], cache.clock, NextRowidOr(old(cache.rows)))
        && (k < |pending.files| ==> r == Err(rs[k].error))
        && (k == |pending.files| ==> r == Ok(()))
    {
      var files := pending.files;
      ghost var before := cache.rows;
      ghost var firstId := NextRowidOr(before);
      assert files[..0] == [];
      if pending.Size() <= 0 {
        return Ok(());
      }
      var i := 0;
      while i < |files|
        invariant i <= |files| && AddedUpTo(env, files, i, before, firstId)
      {
        r := AnalyzeAt(env, files, i, before, firstId);
        if r.Err? {
          return;
        }
        i := i + 1;
      }
      r := Ok(());
    }

    /** One turn of `analyze`: a file that cannot be analysed ends the
        loop with its error; otherwise its row goes in at the end. */
    method AnalyzeAt(env: Env, files: seq<string>, i: nat, ghost before: seq<Row>, ghost firstId: int) returns (r: Result<()>)
      requires Distinct(files) && i < |files| && forall j :: 0 <= j < |files| ==> IsNormal(files[j])
      requires AddedUpTo(env, files, i, before, firstId)
      modifies cache
      ensures r.Err? ==> && AddedUpTo(env, files, i, before, firstId)
                         && FirstErr(Analyses(env, digests, files)) == i
                         && r == Err(Analyses(env, digests, files)[i].error)
      ensures r.Ok? ==> AddedUpTo(env, files, i + 1, before, firstId)
    {
      var analyzed := Analyze(env, Some(files[i]), digests);
      ghost var rs := Analyses(env, digests, files);
      assert rs[i] == analyzed;
      if analyzed.Err? {
        return Err(analyzed.error);
      }
      ghost var rows := cache.rows;
      NormalIsAbsolute(env.cwd, files[i]);
      AddedRow(rs, files, cache.clock, i, firstId, before, rows);
      var added := cache.Add(Instance(analyzed.value));
      assert added.Ok?;
      r := Ok(());
    }

    /** The loop that collects `dups.sort` for every located path with
        more than one copy. */
    method FindDuplicates(files: seq<string>) returns (groups: seq<seq<string>>)
      requires cache.Valid()
      requires forall i :: 0 <= i < |files| ==> files[i] in CachedPaths(cache.rows)
      ensures groups == Groups(cache.rows, files)
    {
      groups := [];
      for i := 0 to |files|
        invariant groups == Groups(cache.rows, files[..i])
      {
        var copies := cache.FindCopies(files[i]);
        groups := AddGroup(files, i, groups, copies.value);
      }
      assert files[..|files|] == files;
    }

    /** One turn of the loop: `duplicates << dups.sort if 1 < dups.size`. */
    method AddGroup(files: seq<string>, i: nat, groups: seq<seq<string>>, dups: seq<string>) returns (groups': seq<seq<string>>)
      requires i < |files| && forall j :: 0 <= j < |files| ==> files[j] in CachedPaths(cache.rows)
      requires groups == Groups(cache.rows, files[..i]) && dups == CopiesFor(cache.rows, files[i])
      ensures groups' == Groups(cache.rows, files[..i + 1])
    {
      GroupsStep(cache.rows, files, i);
      groups' := groups;
      if 1 < |dups| {
        groups' := groups' + [SortedPaths(dups)];
      }
    }
  }
}
