/** The fingerprint cache: the `files` table of the SQLite database, held
    as its rows in ascending rowid, with the queries and updates `Cache`
    runs on it. */
module Store {
  import opened Wrappers
  import opened Ordering
  import opened Paths
  import opened FileSystem
  import opened Timestamps
  import opened Fingerprints
  import opened Records

  /** The number of rows one window of `purge!` inspects. */
  const BATCH_SIZE: nat := 500

  /** No two rows hold the same path. The statement that would create
      the unique index on `path` is never run (see `Cache.Add`), so this
      is a property of the table that the detector keeps, not a
      constraint the table enforces. */
  predicate UniquePaths(rows: seq<Row>) {
    forall i, j :: 0 <= i < j < |rows| ==> rows[i].path != rows[j].path
  }

  /** Rows are listed in ascending rowid, so rowids are distinct. */
  predicate IncreasingIds(rows: seq<Row>) {
    forall i, j :: 0 <= i < j < |rows| ==> rows[i].rowid < rows[j].rowid
  }

  /** Every stored time is a text `Time.parse` reads. */
  predicate Parseable(rows: seq<Row>, clock: Clock) {
    forall i :: 0 <= i < |rows| ==> clock.parse(rows[i].updatedAt).Some?
  }

  /** What holds of the table between two calls. */
  predicate TableInvariant(rows: seq<Row>, clock: Clock) {
    IncreasingIds(rows) && Parseable(rows, clock)
  }

  /** The set of cached paths. */
  function CachedPaths(rows: seq<Row>): set<string> {
    set i | 0 <= i < |rows| :: rows[i].path
  }

  /** `WHERE path = ? LIMIT 1`: the position of the row holding `path`. */
  function FindRow(rows: seq<Row>, path: string): (k: Option<nat>)
    ensures k.Some? ==> k.value < |rows| && rows[k.value].path == path
    ensures k.None? <==> path !in CachedPaths(rows)
  {
    if rows == [] then None
    else if rows[0].path == path then Some(0)
    else
      var k := FindRow(rows[1..], path);
      assert CachedPaths(rows) == {rows[0].path} + CachedPaths(rows[1..]) by {
        forall p | p in CachedPaths(rows) ensures p in {rows[0].path} + CachedPaths(rows[1..]) {
          var i :| 0 <= i < |rows| && rows[i].path == p;
          if i > 0 { assert rows[1..][i - 1] == rows[i]; }
        }
        forall p | p in CachedPaths(rows[1..]) ensures p in CachedPaths(rows) {
          var i :| 0 <= i < |rows[1..]| && rows[1..][i].path == p;
          assert rows[i + 1] == rows[1..][i];
        }
      }
      if k.None? then None else Some(k.value + 1)
  }

  /** The rowid SQLite gives the next row: one more than the largest rowid
      in the table, 1 in an empty table. */
  function NextRowid(rows: seq<Row>): (id: int)
    requires IncreasingIds(rows)
    ensures forall i :: 0 <= i < |rows| ==> rows[i].rowid < id
    ensures rows == [] ==> id == 1
    ensures rows != [] ==> exists i :: 0 <= i < |rows| && rows[i].rowid == id - 1
  {
    if rows == [] then 1 else rows[|rows| - 1].rowid + 1
  }

  /** The row `add` inserts for an analysed file: the time is stored as
      the text `Time#to_s` gives. */
  function Insertion(f: AnalyzedFile, rowid: int, clock: Clock): Row {
    Row(rowid, f.path, f.size, clock.toS(f.updatedAt), f.millis, f.sha512, f.md5)
  }

  /** Distinct paths are as many as the rows that hold them. */
  lemma {:induction false} UniquePathsCount(rows: seq<Row>)
    requires UniquePaths(rows)
    ensures |CachedPaths(rows)| == |rows|
    decreases |rows|
  {
    if rows != [] {
      var init := rows[..|rows| - 1];
      var last := rows[|rows| - 1];
      assert UniquePaths(init);
      UniquePathsCount(init);
      assert CachedPaths(rows) == CachedPaths(init) + {last.path} by {
        forall p | p in CachedPaths(rows) ensures p in CachedPaths(init) + {last.path} {
          var i :| 0 <= i < |rows| && rows[i].path == p;
          if i < |rows| - 1 { assert init[i] == rows[i]; }
        }
      }
      assert last.path !in CachedPaths(init) by {
        forall i | 0 <= i < |init| ensures init[i].path != last.path {
          assert init[i] == rows[i];
        }
      }
    }
  }

  /** Appending a row keeps the paths unique exactly when its path is
      not cached yet. */
  lemma AppendUnique(rows: seq<Row>, row: Row)
    ensures UniquePaths(rows + [row]) <==> UniquePaths(rows) && row.path !in CachedPaths(rows)
  {
    var rows' := rows + [row];
    assert forall i :: 0 <= i < |rows| ==> rows'[i] == rows[i];
    if UniquePaths(rows') {
      forall i | 0 <= i < |rows| ensures rows[i].path != row.path {
        assert rows'[|rows|] == row;
      }
    }
  }

  /** Appending a row for a path already cached adds no cached path: the
      row count grows while the number of distinct paths stays. */
  lemma AppendCached(rows: seq<Row>, row: Row)
    requires row.path in CachedPaths(rows)
    ensures !UniquePaths(rows + [row])
    ensures CachedPaths(rows + [row]) == CachedPaths(rows)
    ensures |rows + [row]| == |rows| + 1
  {
    AppendUnique(rows, row);
    var rows' := rows + [row];
    forall p | p in CachedPaths(rows') ensures p in CachedPaths(rows) {
      var i :| 0 <= i < |rows'| && rows'[i].path == p;
      if i < |rows| {
        assert rows[i] == rows'[i];
      }
    }
    forall p | p in CachedPaths(rows) ensures p in CachedPaths(rows') {
      var i :| 0 <= i < |rows| && rows[i].path == p;
      assert rows'[i] == rows[i];
    }
  }

  /** Inserting a path not yet cached grows the cache by exactly one. */
  lemma SizeAfterInsert(rows: seq<Row>, row: Row)
    requires UniquePaths(rows) && FindRow(rows, row.path).None?
    ensures UniquePaths(rows + [row])
    ensures |CachedPaths(rows + [row])| == |CachedPaths(rows)| + 1
  {
    var rows' := rows + [row];
    forall i | 0 <= i < |rows| ensures rows[i].path != row.path {
      assert rows[i].path in CachedPaths(rows);
    }
    assert forall i :: 0 <= i < |rows| ==> rows'[i] == rows[i];
    UniquePathsCount(rows);
    UniquePathsCount(rows');
  }

  /** Once a file's row is in the table, the file counts as cached from
      any working directory. */
  lemma CachedAfterInsert(cwd: string, rows: seq<Row>, row: Row)
    requires IsNormal(row.path)
    ensures FindRow(rows + [row], AbsolutePath(cwd, row.path)).Some?
  {
    NormalIsAbsolute(cwd, row.path);
    assert (rows + [row])[|rows|].path == row.path;
    assert row.path in CachedPaths(rows + [row]);
  }

  /** What `find_copies` matches on: size and both digests. */
  datatype Signature = Signature(size: int, sha512: string, md5: string)

  function SignatureOf(row: Row): Signature {
    Signature(row.size, row.sha512, row.md5)
  }

  /** The paths of the rows with signature `sig`, in rowid order. */
  function CopiesOf(rows: seq<Row>, sig: Signature): (ps: seq<string>)
    ensures |ps| <= |rows|
  {
    if rows == [] then []
    else
      var init := CopiesOf(rows[..|rows| - 1], sig);
      if SignatureOf(rows[|rows| - 1]) == sig then init + [rows[|rows| - 1].path] else init
  }

  /** A path is a copy exactly when some row with that signature holds it. */
  lemma {:induction false} CopiesOfMembers(rows: seq<Row>, sig: Signature)
    ensures forall p :: p in CopiesOf(rows, sig) <==>
      exists i :: 0 <= i < |rows| && rows[i].path == p && SignatureOf(rows[i]) == sig
    decreases |rows|
  {
    if rows != [] {
      var init := rows[..|rows| - 1];
      CopiesOfMembers(init, sig);
      forall p | p in CopiesOf(rows, sig)
        ensures exists i :: 0 <= i < |rows| && rows[i].path == p && SignatureOf(rows[i]) == sig
      {
        if p in CopiesOf(init, sig) {
          var i :| 0 <= i < |init| && init[i].path == p && SignatureOf(init[i]) == sig;
          assert rows[i] == init[i];
        } else {
          assert rows[|rows| - 1].path == p;
        }
      }
      forall p | exists i :: 0 <= i < |rows| && rows[i].path == p && SignatureOf(rows[i]) == sig
        ensures p in CopiesOf(rows, sig)
      {
        var i :| 0 <= i < |rows| && rows[i].path == p && SignatureOf(rows[i]) == sig;
        if i < |rows| - 1 {
          assert init[i] == rows[i];
        }
      }
    }
  }

  /** With unique paths no path is listed twice. */
  lemma {:induction false} CopiesOfDistinct(rows: seq<Row>, sig: Signature)
    requires UniquePaths(rows)
    ensures Distinct(CopiesOf(rows, sig))
    decreases |rows|
  {
    if rows != [] {
      var init := rows[..|rows| - 1];
      var last := rows[|rows| - 1];
      assert UniquePaths(init);
      CopiesOfDistinct(init, sig);
      CopiesOfMembers(init, sig);
      assert last.path !in CopiesOf(init, sig) by {
        forall i | 0 <= i < |init| ensures init[i].path != last.path {
          assert init[i] == rows[i];
        }
      }
    }
  }

  /** `valid?(cached_file)`: whether the file at the cached path still has
      the cached size and the cached time to the second and to the
      millisecond. Anything but a CachedFile is an ArgumentError; a path
      that is not a text is refused by `File.exist?` with a TypeError.
      Otherwise the answer is true exactly when the file is there, has the
      cached size, and its time lies within half a second of the cached
      second and its sub-second part within half a millisecond of the
      cached milliseconds. */
  function IsValid(env: Env, file: Dyn<CachedFile>): (r: Result<bool>)
    ensures file.OtherObject? ==> r == Err(ArgumentError)
    ensures file.Instance? && !file.value.path.TextCell? ==> r == Err(TypeError)
    ensures file.Instance? && file.value.path.TextCell? ==>
      var f := file.value;
      var node := Stat(env.fs, AbsolutePath(env.cwd, f.path.text));
      && r.Ok?
      && (r.value <==>
            && node.Some?
            && node.value.size == f.size
            && f.updatedAt * NANOS_PER_SECOND - NANOS_PER_SECOND / 2 <= node.value.mtime
            && node.value.mtime < f.updatedAt * NANOS_PER_SECOND + NANOS_PER_SECOND / 2
            && f.millis * NANOS_PER_MILLI - NANOS_PER_MILLI / 2 <= Subsec(node.value.mtime)
            && Subsec(node.value.mtime) < f.millis * NANOS_PER_MILLI + NANOS_PER_MILLI / 2)
  {
    match file
    case OtherObject => Err(ArgumentError)
    case Instance(f) =>
      match f.path
      case TextCell(p) =>
        var abs := AbsolutePath(env.cwd, p);
        if !Exists(env.fs, abs) then Ok(false)
        else
          var node := Stat(env.fs, abs).value;
          NearestSecond(node.mtime, f.updatedAt);
          NearestMilli(node.mtime, f.millis);
          if f.size != node.size then Ok(false)
          else if f.updatedAt != RoundToSecond(node.mtime) then Ok(false)
          else if f.millis != SubsecMillis(node.mtime) then Ok(false)
          else Ok(true)
      case _ => Err(TypeError)
  }

  /** Whether a stored row survives `purge!`: it decodes and is still
      valid. */
  predicate Validity(env: Env, clock: Clock, row: Row) {
    match clock.parse(row.updatedAt)
    case None => false
    case Some(t) =>
      IsValid(env, Instance(CachedFile(row.rowid, TextCell(row.path), row.size, t, row.millis,
                                       TextCell(row.sha512), TextCell(row.md5)))) == Ok(true)
  }

  /** A row inserted for a freshly analysed file is valid as long as the
      filesystem does not change. */
  lemma FreshRowIsValid(env: Env, path: string, digests: Digests, clock: Clock, rowid: int)
    requires clock.RoundTrip()
    requires Analyze(env, Some(path), digests).Ok?
    ensures Validity(env, clock, Insertion(Analyze(env, Some(path), digests).value, rowid, clock))
  {
    var f := Analyze(env, Some(path), digests).value;
    AnalyzeFingerprint(env, path, digests);
    assert clock.parse(clock.toS(f.updatedAt)) == Some(f.updatedAt);
    NormalIsAbsolute(env.cwd, f.path);
    var node := Stat(env.fs, f.path).value;
    RoundToSecondUnique(node.mtime, f.updatedAt);
    SubsecMillisUnique(node.mtime, f.millis);
  }

  /** A stored row survives exactly when its time parses, its file is
      there with the stored size, and the file's time lies within half a
      second of the parsed second and within half a millisecond of the
      stored milliseconds past it. */
  lemma ValidityIff(env: Env, clock: Clock, row: Row)
    ensures Validity(env, clock, row) <==>
      var t := clock.parse(row.updatedAt);
      var node := Stat(env.fs, AbsolutePath(env.cwd, row.path));
      && t.Some? && node.Some?
      && node.value.size == row.size
      && t.value * NANOS_PER_SECOND - NANOS_PER_SECOND / 2 <= node.value.mtime
      && node.value.mtime < t.value * NANOS_PER_SECOND + NANOS_PER_SECOND / 2
      && row.millis * NANOS_PER_MILLI - NANOS_PER_MILLI / 2 <= Subsec(node.value.mtime)
      && Subsec(node.value.mtime) < row.millis * NANOS_PER_MILLI + NANOS_PER_MILLI / 2
  {
    var t := clock.parse(row.updatedAt);
    if t.Some? {
      var f := CachedFile(row.rowid, TextCell(row.path), row.size, t.value, row.millis,
                          TextCell(row.sha512), TextCell(row.md5));
      assert IsValid(env, Instance(f)).Ok?;
    }
  }

  /** Whether a row survives `purge!`, as a predicate on rows. */
  function Survives(env: Env, clock: Clock): Row -> bool {
    row => Validity(env, clock, row)
  }

  /** The rows that survive `purge!`, in their order. */
  function Kept(keep: Row -> bool, rows: seq<Row>): (r: seq<Row>)
    ensures |r| <= |rows|
  {
    if rows == [] then []
    else if keep(rows[0]) then [rows[0]] + Kept(keep, rows[1..])
    else Kept(keep, rows[1..])
  }

  /** A row survives exactly when it is in the table and valid. */
  lemma {:induction false} KeptMembers(keep: Row -> bool, rows: seq<Row>)
    ensures forall row :: row in Kept(keep, rows) <==> row in rows && keep(row)
    decreases |rows|
  {
    if rows != [] {
      KeptMembers(keep, rows[1..]);
      assert rows == [rows[0]] + rows[1..];
    }
  }

  lemma KeptAllValid(keep: Row -> bool, rows: seq<Row>)
    ensures forall i :: 0 <= i < |Kept(keep, rows)| ==> keep(Kept(keep, rows)[i])
  {
    var r := Kept(keep, rows);
    KeptMembers(keep, rows);
    forall i | 0 <= i < |r| ensures keep(r[i]) {
      assert r[i] in r;
    }
  }

  /** The rowids of the rows that do not survive, in rowid order. */
  function InvalidIds(keep: Row -> bool, rows: seq<Row>): seq<int> {
    if rows == [] then []
    else
      var init := InvalidIds(keep, rows[..|rows| - 1]);
      if keep(rows[|rows| - 1]) then init else init + [rows[|rows| - 1].rowid]
  }

  lemma {:induction false} InvalidIdsMembers(keep: Row -> bool, rows: seq<Row>)
    ensures forall id :: id in InvalidIds(keep, rows) <==>
      exists k :: 0 <= k < |rows| && rows[k].rowid == id && !keep(rows[k])
    decreases |rows|
  {
    if rows != [] {
      var init := rows[..|rows| - 1];
      InvalidIdsMembers(keep, init);
      forall id | id in InvalidIds(keep, rows)
        ensures exists k :: 0 <= k < |rows| && rows[k].rowid == id && !keep(rows[k])
      {
        if id in InvalidIds(keep, init) {
          var k :| 0 <= k < |init| && init[k].rowid == id && !keep(init[k]);
          assert rows[k] == init[k];
        } else {
          assert rows[|rows| - 1].rowid == id;
        }
      }
      forall id | exists k :: 0 <= k < |rows| && rows[k].rowid == id && !keep(rows[k])
        ensures id in InvalidIds(keep, rows)
      {
        var k :| 0 <= k < |rows| && rows[k].rowid == id && !keep(rows[k]);
        if k < |rows| - 1 {
          assert init[k] == rows[k];
        }
      }
    }
  }

  /** `DELETE … WHERE rowid IN (ids)`. */
  function Delete(rows: seq<Row>, ids: seq<int>): (r: seq<Row>)
    ensures |r| <= |rows|
    ensures forall i :: 0 <= i < |r| ==> r[i] in rows && r[i].rowid !in ids
  {
    if rows == [] then []
    else if rows[0].rowid in ids then Delete(rows[1..], ids)
    else [rows[0]] + Delete(rows[1..], ids)
  }

  lemma {:induction false} DeleteConcat(a: seq<Row>, b: seq<Row>, ids: seq<int>)
    ensures Delete(a + b, ids) == Delete(a, ids) + Delete(b, ids)
    decreases |a|
  {
    if a != [] {
      assert (a + b)[1..] == a[1..] + b;
      DeleteConcat(a[1..], b, ids);
    } else {
      assert a + b == b;
    }
  }

  /** Deleting ids no row holds changes nothing. */
  lemma {:induction false} DeleteNone(rows: seq<Row>, ids: seq<int>)
    requires forall i :: 0 <= i < |rows| ==> rows[i].rowid !in ids
    ensures Delete(rows, ids) == rows
    decreases |rows|
  {
    if rows != [] {
      DeleteNone(rows[1..], ids);
    }
  }

  /** Deleting exactly the ids of the invalid rows keeps the valid ones. */
  lemma {:induction false} DeleteAsKept(keep: Row -> bool, rows: seq<Row>, ids: seq<int>)
    requires forall i :: 0 <= i < |rows| ==> (rows[i].rowid in ids <==> !keep(rows[i]))
    ensures Delete(rows, ids) == Kept(keep, rows)
    decreases |rows|
  {
    if rows != [] {
      DeleteAsKept(keep, rows[1..], ids);
    }
  }

  lemma {:induction false} KeptConcat(keep: Row -> bool, a: seq<Row>, b: seq<Row>)
    ensures Kept(keep, a + b) == Kept(keep, a) + Kept(keep, b)
    decreases |a|
  {
    if a != [] {
      assert (a + b)[1..] == a[1..] + b;
      KeptConcat(keep, a[1..], b);
    } else {
      assert a + b == b;
    }
  }

  /** Dropping one row keeps the table invariant, and unique paths. */
  lemma DropOne(x: seq<Row>, b: Row, y: seq<Row>, clock: Clock)
    requires TableInvariant(x + [b] + y, clock)
    ensures TableInvariant(x + y, clock)
    ensures UniquePaths(x + [b] + y) ==> UniquePaths(x + y)
  {
    var z := x + [b] + y;
    var w := x + y;
    forall i, j | 0 <= i < j < |w|
      ensures w[i].rowid < w[j].rowid
      ensures UniquePaths(z) ==> w[i].path != w[j].path
    {
      var i' := if i < |x| then i else i + 1;
      var j' := if j < |x| then j else j + 1;
      assert w[i] == z[i'] && w[j] == z[j'];
    }
    forall i | 0 <= i < |w| ensures clock.parse(w[i].updatedAt).Some? {
      var i' := if i < |x| then i else i + 1;
      assert w[i] == z[i'];
    }
  }

  /** Keeping only the valid rows of a suffix keeps the table invariant,
      and unique paths. */
  lemma {:induction false} KeptInvariant(keep: Row -> bool, clock: Clock, a: seq<Row>, b: seq<Row>)
    requires TableInvariant(a + b, clock)
    ensures TableInvariant(a + Kept(keep, b), clock)
    ensures UniquePaths(a + b) ==> UniquePaths(a + Kept(keep, b))
    decreases |b|
  {
    if b == [] {
      assert a + b == a;
    } else {
      var first := b[0];
      assert a + b == a + [first] + b[1..];
      if keep(first) {
        assert Kept(keep, b) == [first] + Kept(keep, b[1..]);
        KeptInvariant(keep, clock, a + [first], b[1..]);
        assert a + Kept(keep, b) == (a + [first]) + Kept(keep, b[1..]);
      } else {
        assert Kept(keep, b) == Kept(keep, b[1..]);
        DropOne(a, first, b[1..], clock);
        KeptInvariant(keep, clock, a, b[1..]);
      }
    }
  }

  /** No row before the window is deleted: its rowids are below every
      rowid the window reads. */
  lemma WindowSparesEarlier(keep: Row -> bool, a: seq<Row>, w: seq<Row>)
    requires forall i, k :: 0 <= i < |a| && 0 <= k < |w| ==> a[i].rowid < w[k].rowid
    ensures forall i :: 0 <= i < |a| ==> a[i].rowid !in InvalidIds(keep, w)
  {
    InvalidIdsMembers(keep, w);
  }

  /** No row already swept is deleted: the window holds it only if it is
      valid, and its rowid is above those of the rows not yet swept. */
  lemma WindowSparesSwept(keep: Row -> bool, b: seq<Row>, c: seq<Row>, m: nat)
    requires m <= |c|
    requires forall k, i :: 0 <= k < |b| && 0 <= i < |c| ==> b[k].rowid < c[i].rowid
    requires forall i :: 0 <= i < |c| ==> keep(c[i])
    ensures forall i :: 0 <= i < |c| ==> c[i].rowid !in InvalidIds(keep, b + c[..m])
  {
    var w := b + c[..m];
    InvalidIdsMembers(keep, w);
    forall i | 0 <= i < |c| ensures c[i].rowid !in InvalidIds(keep, w) {
      forall k | 0 <= k < |b| ensures w[k].rowid < c[i].rowid {
        assert w[k] == b[k];
      }
      forall k | |b| <= k < |w| ensures keep(w[k]) {
        assert w[k] == c[k - |b|];
      }
    }
  }

  /** A row not yet swept is deleted exactly when it is invalid. */
  lemma WindowSweeps(keep: Row -> bool, b: seq<Row>, c: seq<Row>, m: nat)
    requires m <= |c| && IncreasingIds(b + c)
    ensures forall i :: 0 <= i < |b| ==>
      (b[i].rowid in InvalidIds(keep, b + c[..m]) <==> !keep(b[i]))
  {
    var w := b + c[..m];
    InvalidIdsMembers(keep, w);
    forall i | 0 <= i < |b|
      ensures b[i].rowid in InvalidIds(keep, w) <==> !keep(b[i])
    {
      assert w[i] == b[i];
      forall k | 0 <= k < |w| && k != i ensures w[k].rowid != b[i].rowid {
        assert w[k] == (b + c)[k];
        assert b[i] == (b + c)[i];
      }
    }
  }

  /** One window of `purge!`. The table is `a + b` followed by the rows
      of `d` that survived earlier windows; the window starts at the end
      of `a` and reaches at least to the end of `b`. Deleting the invalid
      rows the window shows sweeps `b` and touches nothing else, so the
      rows from `a` on are swept. */
  lemma WindowStep(keep: Row -> bool, a: seq<Row>, b: seq<Row>, d: seq<Row>, hi: nat)
    requires IncreasingIds(a + b + Kept(keep, d))
    requires |a| + |b| <= hi <= |a| + |b| + |Kept(keep, d)|
    ensures Delete(a + b + Kept(keep, d), InvalidIds(keep, (a + b + Kept(keep, d))[|a|..hi]))
            == a + Kept(keep, b + d)
  {
    var c := Kept(keep, d);
    var ids := InvalidIds(keep, (a + b + c)[|a|..hi]);
    WindowFacts(keep, a, b, d, hi);
    DeleteThree(a, b, c, ids);
    DeleteNone(a, ids);
    DeleteNone(c, ids);
    DeleteAsKept(keep, b, ids);
    KeptConcat(keep, b, d);
  }

  /** What a window's invalid ids are: none of the rows before it, none
      of the rows already swept, and exactly the invalid rows not yet
      swept. */
  lemma WindowFacts(keep: Row -> bool, a: seq<Row>, b: seq<Row>, d: seq<Row>, hi: nat)
    requires IncreasingIds(a + b + Kept(keep, d))
    requires |a| + |b| <= hi <= |a| + |b| + |Kept(keep, d)|
    ensures var ids := InvalidIds(keep, (a + b + Kept(keep, d))[|a|..hi]);
      && (forall i :: 0 <= i < |a| ==> a[i].rowid !in ids)
      && (forall i :: 0 <= i < |Kept(keep, d)| ==> Kept(keep, d)[i].rowid !in ids)
      && (forall i :: 0 <= i < |b| ==> (b[i].rowid in ids <==> !keep(b[i])))
  {
    var c := Kept(keep, d);
    var m := hi - |a| - |b|;
    var w := b + c[..m];
    assert (a + b + c)[|a|..hi] == w;
    IncreasingParts(a, b, c, m);
    KeptAllValid(keep, d);
    WindowSparesEarlier(keep, a, w);
    WindowSparesSwept(keep, b, c, m);
    WindowSweeps(keep, b, c, m);
  }

  lemma DeleteThree(a: seq<Row>, b: seq<Row>, c: seq<Row>, ids: seq<int>)
    ensures Delete(a + b + c, ids) == Delete(a, ids) + (Delete(b, ids) + Delete(c, ids))
  {
    assert a + b + c == a + (b + c);
    DeleteConcat(a, b + c, ids);
    DeleteConcat(b, c, ids);
  }

  /** The rowid order of a table split in three parts. */
  lemma IncreasingParts(a: seq<Row>, b: seq<Row>, c: seq<Row>, m: nat)
    requires IncreasingIds(a + b + c) && m <= |c|
    ensures forall i, k :: 0 <= i < |a| && 0 <= k < |b + c[..m]| ==> a[i].rowid < (b + c[..m])[k].rowid
    ensures forall k, i :: 0 <= k < |b| && 0 <= i < |c| ==> b[k].rowid < c[i].rowid
    ensures IncreasingIds(b + c)
  {
    var all := a + b + c;
    var w := b + c[..m];
    forall i, k | 0 <= i < |a| && 0 <= k < |w| ensures a[i].rowid < w[k].rowid {
      assert a[i] == all[i];
      assert w[k] == all[|a| + k];
    }
    forall k, i | 0 <= k < |b| && 0 <= i < |c| ensures b[k].rowid < c[i].rowid {
      assert b[k] == all[|a| + k];
      assert c[i] == all[|a| + |b| + i];
    }
    forall i, j | 0 <= i < j < |b + c| ensures (b + c)[i].rowid < (b + c)[j].rowid {
      assert (b + c)[i] == all[|a| + i] && (b + c)[j] == all[|a| + j];
    }
  }

  /** `[0, x].max`. */
  function AtLeastZero(x: int): (r: nat)
    ensures r >= x && (r == 0 || r == x)
  {
    if x < 0 then 0 else x
  }

  /** The offset of the window `purge!` reads in its `k`-th pass (from
      0): `[0, n - (k + 1) * 500].max`, so the windows run from the end of
      the table towards its start. */
  function WindowOffset(n: nat, k: nat): nat {
    AtLeastZero(n - (k + 1) * BATCH_SIZE)
  }

  /** The number of passes over a table of `n` rows, ⌈n / 500⌉. */
  function WindowCount(n: nat): nat {
    (n + BATCH_SIZE - 1) / BATCH_SIZE
  }

  /** ⌈n / 500⌉ is the one count of windows that reaches the start of the
      table without a pass to spare. */
  lemma WindowCountUnique(n: nat, w: nat)
    requires n <= w * BATCH_SIZE && (w == 0 || (w - 1) * BATCH_SIZE < n)
    ensures w == WindowCount(n)
  {
  }

  /** One more pass: the next window ends where the previous one began,
      at most 500 rows later, and starts at the next offset. */
  lemma WindowAdvance(n: nat, w: nat)
    requires w * BATCH_SIZE < n
    ensures var offset := AtLeastZero(n - (w + 1) * BATCH_SIZE);
      && offset == WindowOffset(n, w)
      && offset <= AtLeastZero(n - w * BATCH_SIZE) <= n
      && AtLeastZero(n - w * BATCH_SIZE) <= offset + BATCH_SIZE
  {
  }

  /** Recording the offset of the next pass keeps the record of passes
      equal to the window offsets in order. */
  lemma {:induction false} OffsetsGrow(n: nat, offsets: seq<nat>, offset: nat)
    requires forall k :: 0 <= k < |offsets| ==> offsets[k] == WindowOffset(n, k)
    requires offset == WindowOffset(n, |offsets|)
    ensures forall k :: 0 <= k < |offsets| + 1 ==> (offsets + [offset])[k] == WindowOffset(n, k)
  {
    forall k | 0 <= k < |offsets| + 1
      ensures (offsets + [offset])[k] == WindowOffset(n, k)
    {
      if k < |offsets| {
        assert (offsets + [offset])[k] == offsets[k];
      }
    }
  }

  /** The windows together cover every row of the table. */
  lemma WindowsCover(n: nat, i: nat)
    requires i < n
    ensures exists k :: 0 <= k < WindowCount(n) && WindowOffset(n, k) <= i < WindowOffset(n, k) + BATCH_SIZE
  {
    var k := (n - 1 - i) / BATCH_SIZE;
    assert k * BATCH_SIZE <= n - 1 - i < (k + 1) * BATCH_SIZE;
    assert k < WindowCount(n);
    assert WindowOffset(n, k) <= i < WindowOffset(n, k) + BATCH_SIZE;
  }

  /** 1200 rows are read in three windows, at offsets 700, 200 and 0; the
      last one holds the 200 rows the first two did not reach and 300
      rows already read. */
  lemma WindowsOf1200()
    ensures WindowCount(1200) == 3
    ensures WindowOffset(1200, 0) == 700 && WindowOffset(1200, 1) == 200 && WindowOffset(1200, 2) == 0
  {
  }

  lemma ParseableSlice(rows: seq<Row>, clock: Clock, lo: nat, hi: nat)
    requires Parseable(rows, clock) && lo <= hi <= |rows|
    ensures Parseable(rows[lo..hi], clock)
  {
    forall j | 0 <= j < hi - lo ensures clock.parse(rows[lo..hi][j].updatedAt).Some? {
      assert rows[lo..hi][j] == rows[lo + j];
    }
  }

  /** One pass of the `purge!` loop on the table as it stands: the rows
      of the original table from `prev` on have been swept, and the window
      at `offset` reaches at least to `prev`. Deleting the invalid rows the
      window shows sweeps the rows from `offset` on. */
  lemma SweepPass(keep: Row -> bool, original: seq<Row>, offset: nat, prev: nat, hi: nat)
    requires offset <= prev <= |original| && prev <= offset + BATCH_SIZE
    requires IncreasingIds(original[..prev] + Kept(keep, original[prev..]))
    requires var rows := original[..prev] + Kept(keep, original[prev..]);
      hi == (if offset + BATCH_SIZE < |rows| then offset + BATCH_SIZE else |rows|)
    ensures var rows := original[..prev] + Kept(keep, original[prev..]);
      && offset <= hi <= |rows|
      && Delete(rows, InvalidIds(keep, rows[offset..hi])) == original[..offset] + Kept(keep, original[offset..])
  {
    var a, b, d := original[..offset], original[offset..prev], original[prev..];
    var rows := original[..prev] + Kept(keep, d);
    assert rows == a + b + Kept(keep, d) && |a| + |b| == prev by {
      assert original[..prev] == a + b;
    }
    assert original[offset..] == b + d;
    WindowStep(keep, a, b, d, hi);
  }

  /** Sweeping the rows from position `prev` on keeps the table invariant,
      and unique paths. */
  lemma KeptSuffixInvariant(keep: Row -> bool, clock: Clock, original: seq<Row>, prev: nat)
    requires TableInvariant(original, clock) && prev <= |original|
    ensures TableInvariant(original[..prev] + Kept(keep, original[prev..]), clock)
    ensures UniquePaths(original) ==> UniquePaths(original[..prev] + Kept(keep, original[prev..]))
  {
    assert original == original[..prev] + original[prev..];
    KeptInvariant(keep, clock, original[..prev], original[prev..]);
  }

  /** Keeping only the valid rows of the whole table keeps the table
      invariant, and unique paths. */
  lemma KeptWhole(keep: Row -> bool, clock: Clock, original: seq<Row>)
    requires TableInvariant(original, clock)
    ensures TableInvariant(Kept(keep, original), clock)
    ensures UniquePaths(original) ==> UniquePaths(Kept(keep, original))
  {
    KeptSuffixInvariant(keep, clock, original, 0);
    SweptWhole(keep, original, 0);
  }

  /** Swept from position 0 on is swept whole. */
  lemma SweptWhole(keep: Row -> bool, original: seq<Row>, prev: nat)
    requires prev == 0
    ensures original[..prev] + Kept(keep, original[prev..]) == Kept(keep, original)
  {
    assert original[..prev] == [] && original[prev..] == original;
  }

  /** The cache: the rows of the `files` table, in ascending rowid. */
  class Cache {
    var rows: seq<Row>
    /** How `Time#to_s` and `Time.parse` turn seconds into text and back. */
    const clock: Clock

    ghost predicate Valid()
      reads this
    {
      TableInvariant(rows, clock) && clock.RoundTrip()
    }

    /** `Cache.new`: opens the table earlier runs left behind. */
    constructor (persisted: seq<Row>, clock: Clock)
      requires TableInvariant(persisted, clock) && clock.RoundTrip()
      ensures Valid() && rows == persisted && this.clock == clock
    {
      rows := persisted;
      this.clock := clock;
    }

    /** `add(analyzed_file)`. Anything but an AnalyzedFile is an
        ArgumentError; otherwise the row is appended. The statement that
        creates the table also carries `CREATE UNIQUE INDEX … (path)`, but
        `Database#execute` runs only the first statement of its text, so
        the index does not exist and a path already cached gets a second
        row. Paths stay unique exactly when the new one was not cached. */
    method Add(file: Dyn<AnalyzedFile>) returns (r: Result<()>)
      requires Valid()
      modifies this
      ensures Valid()
      ensures file.OtherObject? ==> r == Err(ArgumentError) && rows == old(rows)
      ensures file.Instance? ==>
        && r == Ok(())
        && rows == old(rows) + [Insertion(file.value, NextRowid(old(rows)), clock)]
        && (UniquePaths(rows) <==> old(UniquePaths(rows)) && FindRow(old(rows), file.value.path).None?)
    {
      if file.OtherObject? {
        return Err(ArgumentError);
      }
      var f := file.value;
      var row := Insertion(f, NextRowid(rows), clock);
      assert clock.parse(clock.toS(f.updatedAt)) == Some(f.updatedAt);
      AppendUnique(rows, row);
      rows := rows + [row];
      r := Ok(());
    }

    /** `size`: `COUNT(*)`, the number of rows; with unique paths that is
        the number of cached paths. */
    function Size(): (n: nat)
      reads this
      ensures n == |rows|
      ensures UniquePaths(rows) ==> n == |CachedPaths(rows)|
    {
      if UniquePaths(rows) then
        UniquePathsCount(rows);
        |rows|
      else
        |rows|
    }

    /** `cached?(path)`: whether a row holds the path's absolute form. */
    function Cached(env: Env, path: string): (b: bool)
      reads this
      ensures b <==> AbsolutePath(env.cwd, path) in CachedPaths(rows)
    {
      FindRow(rows, AbsolutePath(env.cwd, path)).Some?
    }

    /** `find_copies(path)`: the paths of all rows with the size and
        digests of the row holding `path`, in rowid order, that path among
        them. With no such row, the decoding of nil is a NoMethodError. */
    method FindCopies(path: string) returns (r: Result<seq<string>>)
      requires Valid()
      ensures path !in CachedPaths(rows) ==> r == Err(NoMethodError)
      ensures path in CachedPaths(rows) ==>
        && r.Ok?
        && (forall p :: p in r.value <==>
              exists i :: 0 <= i < |rows| && rows[i].path == p
                          && SignatureOf(rows[i]) == SignatureOf(rows[FindRow(rows, path).value]))
        && path in r.value
        && (UniquePaths(rows) ==> Distinct(r.value))
        && r.value == CopiesOf(rows, SignatureOf(rows[FindRow(rows, path).value]))
    {
      var k := FindRow(rows, path);
      if k.None? {
        return Err(NoMethodError);
      }
      var row := rows[k.value];
      var file := Load(row, clock.parse);
      var copies := Select(file.size, file.sha512.text, file.md5.text);
      CopiesOfMembers(rows, SignatureOf(row));
      if UniquePaths(rows) {
        CopiesOfDistinct(rows, SignatureOf(row));
      }
      return Ok(copies);
    }

    /** `SELECT path … WHERE size = ? AND sha512 = ? AND md5 = ?`: the
        paths of the matching rows, collected one by one in rowid order. */
    method Select(size: int, sha512: string, md5: string) returns (copies: seq<string>)
      ensures copies == CopiesOf(rows, Signature(size, sha512, md5))
    {
      copies := [];
      var i := 0;
      while i < |rows|
        invariant 0 <= i <= |rows|
        invariant copies == CopiesOf(rows[..i], Signature(size, sha512, md5))
      {
        var candidate := rows[i];
        if candidate.size == size && candidate.sha512 == sha512 && candidate.md5 == md5 {
          copies := copies + [candidate.path];
        }
        assert rows[..i + 1][..i] == rows[..i];
        i := i + 1;
      }
      assert rows[..i] == rows;
    }

    /** One window of `purge!`: each row is decoded and checked, and the
        rowids of the invalid ones are collected in order. */
    method Inspect(env: Env, window: seq<Row>) returns (purgeable: seq<int>)
      requires Parseable(window, clock)
      ensures purgeable == InvalidIds(Survives(env, clock), window)
    {
      purgeable := [];
      var j := 0;
      while j < |window|
        invariant 0 <= j <= |window|
        invariant purgeable == InvalidIds(Survives(env, clock), window[..j])
      {
        var row := window[j];
        var item := Load(row, clock.parse);
        var valid := IsValid(env, Instance(item)).value;
        if !valid {
          purgeable := purgeable + [item.id];
        }
        assert window[..j + 1][..j] == window[..j];
        j := j + 1;
      }
      assert window[..j] == window;
    }

    /** The body of the `purge!` loop: reads the window of 500 rows at
        `offset` and deletes the invalid rows it finds. The rows of the
        table as it was from `prev` on have been swept already. */
    method SweepWindow(env: Env, offset: nat, ghost prev: nat, ghost original: seq<Row>)
      requires TableInvariant(original, clock)
      requires offset <= prev <= |original| && prev <= offset + BATCH_SIZE
      requires rows == original[..prev] + Kept(Survives(env, clock), original[prev..])
      modifies this
      ensures rows == original[..offset] + Kept(Survives(env, clock), original[offset..])
    {
      KeptSuffixInvariant(Survives(env, clock), clock, original, prev);
      var hi := if offset + BATCH_SIZE < |rows| then offset + BATCH_SIZE else |rows|;
      var window := rows[offset..hi];
      ParseableSlice(rows, clock, offset, hi);
      var purgeable := Inspect(env, window);
      SweepPass(Survives(env, clock), original, offset, prev, hi);
      if purgeable != [] {
        rows := Delete(rows, purgeable);
      } else {
        DeleteNone(rows, purgeable);
      }
    }

    /** `purge!(all:)`. With `all` every row is deleted. Otherwise the table
        is read in windows of 500 rows, from the last window to the first,
        and after each window the rows it found invalid are deleted; the
        offsets read are returned. In the end exactly the valid rows
        remain, in their order. */
    method Purge(all: bool, env: Env) returns (ghost offsets: seq<nat>)
      requires Valid()
      modifies this
      ensures Valid()
      ensures old(UniquePaths(rows)) ==> UniquePaths(rows)
      ensures all ==> rows == [] && offsets == []
      ensures !all ==> rows == Kept(Survives(env, clock), old(rows))
      ensures !all ==> |offsets| == WindowCount(|old(rows)|)
      ensures !all ==> forall k :: 0 <= k < |offsets| ==> offsets[k] == WindowOffset(|old(rows)|, k)
    {
      if all {
        rows := [];
        offsets := [];
        return;
      }
      offsets := PurgeInvalid(env);
    }

    /** The windowed pass of `purge!`. */
    method PurgeInvalid(env: Env) returns (ghost offsets: seq<nat>)
      requires Valid()
      modifies this
      ensures Valid()
      ensures old(UniquePaths(rows)) ==> UniquePaths(rows)
      ensures rows == Kept(Survives(env, clock), old(rows))
      ensures |offsets| == WindowCount(|old(rows)|)
      ensures forall k :: 0 <= k < |offsets| ==> offsets[k] == WindowOffset(|old(rows)|, k)
    {
      offsets := [];
      ghost var original := rows;
      ghost var keep := Survives(env, clock);
      var cachedItems := Size();
      if 0 < cachedItems {
        var windowIndex := 0;
        ghost var prev: nat := cachedItems;
        assert original[..prev] == original && original[prev..] == [];
        while windowIndex * BATCH_SIZE < cachedItems
          invariant TableInvariant(original, clock)
          invariant |original| == cachedItems
          invariant prev == AtLeastZero(cachedItems - windowIndex * BATCH_SIZE)
          invariant windowIndex == 0 || (windowIndex - 1) * BATCH_SIZE < cachedItems
          invariant rows == original[..prev] + Kept(keep, original[prev..])
          invariant |offsets| == windowIndex
          invariant forall k :: 0 <= k < |offsets| ==> offsets[k] == WindowOffset(cachedItems, k)
          decreases cachedItems - windowIndex * BATCH_SIZE
        {
          WindowAdvance(cachedItems, windowIndex);
          windowIndex := windowIndex + 1;
          var offset := AtLeastZero(cachedItems - windowIndex * BATCH_SIZE);
          SweepWindow(env, offset, prev, original);
          OffsetsGrow(cachedItems, offsets, offset);
          offsets := offsets + [offset];
          prev := offset;
        }
        WindowCountUnique(cachedItems, windowIndex);
        SweptWhole(keep, original, prev);
      }
      KeptWhole(keep, clock, original);
    }
  }
}
