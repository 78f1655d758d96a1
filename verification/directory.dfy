/** `Directory`: the list of files a run looks at, gathered by walking the
    filesystem from the paths given on the command line. */
module Traversal {
  import opened Wrappers
  import opened Text
  import opened Ordering
  import opened Paths
  import opened FileSystem

  predicate StartsWithDot(name: string) {
    name != [] && name[0] == '.'
  }

  /** `Dir.glob('*', flags)` in a directory whose entries are `entries`:
      a name that starts with a dot is listed only with
      `File::FNM_DOTMATCH`. */
  function Listing(entries: seq<string>, includeAll: bool): (r: seq<string>)
    ensures forall i :: 0 <= i < |r| ==> r[i] in entries
    ensures forall i :: 0 <= i < |r| ==> includeAll || !StartsWithDot(r[i])
    ensures forall i :: 0 <= i < |entries| && (includeAll || !StartsWithDot(entries[i])) ==> entries[i] in r
  {
    if entries == [] then []
    else
      var rest := Listing(entries[1..], includeAll);
      assert forall i :: 1 <= i < |entries| ==> entries[i] == entries[1..][i - 1];
      if includeAll || !StartsWithDot(entries[0]) then [entries[0]] + rest else rest
  }

  predicate DotsOnly(line: string) {
    line != [] && forall k :: 0 <= k < |line| ==> line[k] == '.'
  }

  /** `sub.match(/^\.+$/)`: `^` and `$` are line anchors, so a name matches
      when one of its lines is made of dots only. */
  predicate DotsLine(name: string) {
    var lines := SplitOn(name, '\n');
    exists i :: 0 <= i < |lines| && DotsOnly(lines[i])
  }

  /** A name that is one line of dots is skipped. */
  lemma DotsSkipped(name: string)
    requires DotsOnly(name)
    ensures DotsLine(name)
  {
    assert '\n' !in name by {
      assert forall k :: 0 <= k < |name| ==> name[k] == '.';
    }
    assert SplitOn(name, '\n')[0] == name;
  }

  /** `.` and `..` are skipped, and so is a name with a line of dots. */
  lemma DotNamesSkipped()
    ensures DotsLine(".") && DotsLine("..") && DotsLine("a\n..")
  {
    DotsSkipped(".");
    DotsSkipped("..");
    assert SplitOn("a\n..", '\n') == ["a", ".."] by {
      assert "a\n.." == "a" + ['\n'] + "..";
      SplitOnAppend("a", "..", '\n');
    }
    assert DotsOnly(SplitOn("a\n..", '\n')[1]);
  }

  /** Other names starting with a dot are walked. */
  lemma HiddenNameWalked()
    ensures !DotsLine(".git")
  {
    assert '\n' !in ".git";
    assert SplitOn(".git", '\n') == [".git"];
    assert !DotsOnly(".git") by {
      assert ".git"[1] == 'g';
    }
  }

  /** A directory entry that is not skipped names one level down. */
  lemma NotDotsIsPlain(name: string)
    requires name != [] && '/' !in name && !DotsLine(name)
    ensures Plain(name)
  {
    DotsSkipped(".");
    DotsSkipped("..");
  }

  /** The flag a child is added with: `true == recursive`. */
  function ChildFlag(recursive: RubyValue): (r: RubyValue)
    ensures r.Truthy() <==> recursive == TrueValue
    ensures r == TrueValue || r == FalseValue
  {
    if recursive == TrueValue then TrueValue else FalseValue
  }

  /** The paths in the filesystem at least as long as `dir`: a walk only
      descends to longer paths, so this set shrinks at every level. */
  function Scope(fs: Fs, dir: string): set<string> {
    set p | p in fs && |p| >= |dir|
  }

  lemma ScopeShrinks(fs: Fs, dir: string, child: string)
    requires dir in fs && |child| > |dir|
    ensures Scope(fs, child) < Scope(fs, dir)
  {
    assert dir in Scope(fs, dir) && dir !in Scope(fs, child);
  }

  /** A listed directory: present in the map itself, not behind a link. */
  lemma DirectoryNode(fs: Fs, abs: string)
    requires IsDirectory(fs, abs) && !IsSymlink(fs, abs)
    ensures abs in fs && fs[abs].kind.Directory?
  {
    assert abs in fs;
    StatOfNonLink(fs, abs);
  }

  /** The paths `add(path, recursive:, include_all:)` appends, in order: a
      symbolic link is skipped, a regular file is taken, and a directory
      is expanded when `recursive` is truthy, each listed entry but the
      dot names being added with `recursive: (true == recursive)`. A
      directory that cannot be listed raises EPERM, which is rescued: it
      adds nothing. */
  function Walk(env: Env, path: string, recursive: RubyValue, includeAll: bool): (r: seq<string>)
    requires WellFormed(env.fs)
    decreases Scope(env.fs, AbsolutePath(env.cwd, path)), 2, 0
  {
    var abs := AbsolutePath(env.cwd, path);
    if IsSymlink(env.fs, abs) then []
    else if IsFile(env.fs, abs) then [abs]
    else if IsDirectory(env.fs, abs) && recursive.Truthy() then
      DirectoryNode(env.fs, abs);
      AbsoluteIsNormal(env.cwd, path);
      var node := env.fs[abs].kind;
      if !node.listable then []
      else WalkEntries(env, abs, Listing(node.entries, includeAll), ChildFlag(recursive), includeAll)
    else []
  }

  /** What the entries of a directory add, in the order listed. */
  function WalkEntries(env: Env, dir: string, subs: seq<string>, recursive: RubyValue, includeAll: bool): (r: seq<string>)
    requires WellFormed(env.fs) && dir in env.fs && IsNormal(dir)
    requires forall i :: 0 <= i < |subs| ==> subs[i] != [] && '/' !in subs[i]
    decreases Scope(env.fs, dir), 1, |subs|
  {
    if subs == [] then []
    else WalkEntries(env, dir, subs[..|subs| - 1], recursive, includeAll)
         + WalkEntry(env, dir, subs[|subs| - 1], recursive, includeAll)
  }

  /** What one entry adds: nothing for a dot name, else the walk from
      `File.join(dir, sub)`. */
  function WalkEntry(env: Env, dir: string, sub: string, recursive: RubyValue, includeAll: bool): (r: seq<string>)
    requires WellFormed(env.fs) && dir in env.fs && IsNormal(dir)
    requires sub != [] && '/' !in sub
    decreases Scope(env.fs, dir), 0, 0
  {
    if DotsLine(sub) then []
    else
      NotDotsIsPlain(sub);
      JoinNormal(dir, sub);
      NormalIsAbsolute(env.cwd, Join(dir, sub));
      ScopeShrinks(env.fs, dir, Join(dir, sub));
      Walk(env, Join(dir, sub), recursive, includeAll)
  }

  /** The walk over one more entry appends what that entry adds. */
  lemma EntryStep(env: Env, dir: string, subs: seq<string>, i: nat, recursive: RubyValue, includeAll: bool, before: seq<string>)
    requires WellFormed(env.fs) && dir in env.fs && IsNormal(dir)
    requires forall i :: 0 <= i < |subs| ==> subs[i] != [] && '/' !in subs[i]
    requires i < |subs|
    ensures before + WalkEntries(env, dir, subs[..i + 1], recursive, includeAll)
            == before + WalkEntries(env, dir, subs[..i], recursive, includeAll) + WalkEntry(env, dir, subs[i], recursive, includeAll)
  {
    var p := subs[..i + 1];
    assert p[..|p| - 1] == subs[..i] && p[|p| - 1] == subs[i];
    var x, y := WalkEntries(env, dir, subs[..i], recursive, includeAll), WalkEntry(env, dir, subs[i], recursive, includeAll);
    assert WalkEntries(env, dir, p, recursive, includeAll) == x + y;
    assert before + (x + y) == before + x + y;
  }

  /** A path a walk may collect: the normal path of a regular file that
      is not itself a symbolic link. */
  predicate Reached(fs: Fs, p: string) {
    IsNormal(p) && IsFile(fs, p) && !IsSymlink(fs, p)
  }

  /** Without `include_all`, no collected name starts with a dot. */
  predicate Visible(p: string, includeAll: bool) {
    includeAll || !StartsWithDot(Basename(p))
  }

  /** Everything a walk collects is a regular file reached without a link,
      at or below the starting path; apart from the starting path itself,
      hidden names are collected only with `include_all`. */
  lemma {:induction false} WalkCollects(env: Env, path: string, recursive: RubyValue, includeAll: bool)
    requires WellFormed(env.fs)
    ensures var abs := AbsolutePath(env.cwd, path);
      forall i :: 0 <= i < |Walk(env, path, recursive, includeAll)| ==>
        var p := Walk(env, path, recursive, includeAll)[i];
        Reached(env.fs, p) && |p| >= |abs| && (p == abs || Visible(p, includeAll))
    decreases Scope(env.fs, AbsolutePath(env.cwd, path)), 2, 0
  {
    var abs := AbsolutePath(env.cwd, path);
    AbsoluteIsNormal(env.cwd, path);
    if !IsSymlink(env.fs, abs) && !IsFile(env.fs, abs) && IsDirectory(env.fs, abs) && recursive.Truthy() {
      DirectoryNode(env.fs, abs);
      var node := env.fs[abs].kind;
      if node.listable {
        WalkEntriesCollect(env, abs, Listing(node.entries, includeAll), ChildFlag(recursive), includeAll);
      }
    }
  }

  lemma {:induction false} WalkEntriesCollect(env: Env, dir: string, subs: seq<string>, recursive: RubyValue, includeAll: bool)
    requires WellFormed(env.fs) && dir in env.fs && IsNormal(dir)
    requires forall i :: 0 <= i < |subs| ==> subs[i] != [] && '/' !in subs[i]
    requires forall i :: 0 <= i < |subs| ==> includeAll || !StartsWithDot(subs[i])
    ensures forall i :: 0 <= i < |WalkEntries(env, dir, subs, recursive, includeAll)| ==>
      var p := WalkEntries(env, dir, subs, recursive, includeAll)[i];
      Reached(env.fs, p) && |p| > |dir| && Visible(p, includeAll)
    decreases Scope(env.fs, dir), 1, |subs|
  {
    if subs != [] {
      var init, last := subs[..|subs| - 1], subs[|subs| - 1];
      WalkEntriesCollect(env, dir, init, recursive, includeAll);
      WalkEntryCollects(env, dir, last, recursive, includeAll);
    }
  }

  lemma {:induction false} WalkEntryCollects(env: Env, dir: string, sub: string, recursive: RubyValue, includeAll: bool)
    requires WellFormed(env.fs) && dir in env.fs && IsNormal(dir)
    requires sub != [] && '/' !in sub && (includeAll || !StartsWithDot(sub))
    ensures forall i :: 0 <= i < |WalkEntry(env, dir, sub, recursive, includeAll)| ==>
      var p := WalkEntry(env, dir, sub, recursive, includeAll)[i];
      Reached(env.fs, p) && |p| > |dir| && Visible(p, includeAll)
    decreases Scope(env.fs, dir), 0, 0
  {
    if !DotsLine(sub) {
      var child := Join(dir, sub);
      NotDotsIsPlain(sub);
      JoinNormal(dir, sub);
      NormalIsAbsolute(env.cwd, child);
      ScopeShrinks(env.fs, dir, child);
      BasenameOfJoin(dir, sub);
      WalkCollects(env, child, recursive, includeAll);
    }
  }

  /** The regular files, not links, among the entries: what one level of
      a directory holds. */
  function FilesAmong(fs: Fs, dir: string, subs: seq<string>): (r: seq<string>)
    ensures forall i :: 0 <= i < |r| ==> IsFile(fs, r[i]) && !IsSymlink(fs, r[i])
  {
    if subs == [] then []
    else
      var child := Join(dir, subs[|subs| - 1]);
      FilesAmong(fs, dir, subs[..|subs| - 1])
        + (if !DotsLine(subs[|subs| - 1]) && !IsSymlink(fs, child) && IsFile(fs, child) then [child] else [])
  }

  /** A truthy flag other than `true` (the `1` given without `-r`)
      expands the directory one level: exactly its regular files, in
      listed order, and none of its subdirectories. */
  lemma ShallowWalk(env: Env, path: string, recursive: RubyValue, includeAll: bool)
    requires WellFormed(env.fs) && recursive.Truthy() && recursive != TrueValue
    requires var abs := AbsolutePath(env.cwd, path);
      !IsSymlink(env.fs, abs) && IsDirectory(env.fs, abs)
    ensures var abs := AbsolutePath(env.cwd, path);
      var node := env.fs[abs].kind;
      Walk(env, path, recursive, includeAll) ==
        if node.listable then FilesAmong(env.fs, abs, Listing(node.entries, includeAll)) else []
  {
    var abs := AbsolutePath(env.cwd, path);
    DirectoryNode(env.fs, abs);
    AbsoluteIsNormal(env.cwd, path);
    var node := env.fs[abs].kind;
    if node.listable {
      ShallowEntries(env, abs, Listing(node.entries, includeAll), includeAll);
    }
  }

  lemma {:induction false} ShallowEntries(env: Env, dir: string, subs: seq<string>, includeAll: bool)
    requires WellFormed(env.fs) && dir in env.fs && IsNormal(dir)
    requires forall i :: 0 <= i < |subs| ==> subs[i] != [] && '/' !in subs[i]
    ensures WalkEntries(env, dir, subs, FalseValue, includeAll) == FilesAmong(env.fs, dir, subs)
  {
    if subs != [] {
      var last := subs[|subs| - 1];
      ShallowEntries(env, dir, subs[..|subs| - 1], includeAll);
      ShallowEntry(env, dir, last, includeAll);
    }
  }

  /** Without recursion an entry adds itself when it is a regular file. */
  lemma ShallowEntry(env: Env, dir: string, sub: string, includeAll: bool)
    requires WellFormed(env.fs) && dir in env.fs && IsNormal(dir)
    requires sub != [] && '/' !in sub
    ensures var child := Join(dir, sub);
      WalkEntry(env, dir, sub, FalseValue, includeAll)
      == if !DotsLine(sub) && !IsSymlink(env.fs, child) && IsFile(env.fs, child) then [child] else []
  {
    if !DotsLine(sub) {
      var child := Join(dir, sub);
      NotDotsIsPlain(sub);
      JoinNormal(dir, sub);
      NormalIsAbsolute(env.cwd, child);
      assert WalkEntry(env, dir, sub, FalseValue, includeAll) == Walk(env, child, FalseValue, includeAll);
    }
  }

  /** With `recursive: true` every level is expanded: whatever the walk
      from a listed entry collects, the walk from its directory collects
      too, so the walk reaches every depth. */
  lemma DeepWalk(env: Env, path: string, includeAll: bool, sub: string)
    requires WellFormed(env.fs)
    requires var abs := AbsolutePath(env.cwd, path);
      && !IsSymlink(env.fs, abs) && IsDirectory(env.fs, abs)
      && env.fs[abs].kind.listable && sub in Listing(env.fs[abs].kind.entries, includeAll)
      && !DotsLine(sub)
    ensures var child := Join(AbsolutePath(env.cwd, path), sub);
      forall q :: q in Walk(env, child, TrueValue, includeAll) ==> q in Walk(env, path, TrueValue, includeAll)
  {
    var abs := AbsolutePath(env.cwd, path);
    ListedWalk(env, path, TrueValue, includeAll);
    EntryWithin(env, abs, Listing(env.fs[abs].kind.entries, includeAll), sub, includeAll);
  }

  /** The walk from a listable directory is the walk over its listing. */
  lemma ListedWalk(env: Env, path: string, recursive: RubyValue, includeAll: bool)
    requires WellFormed(env.fs) && recursive.Truthy()
    requires var abs := AbsolutePath(env.cwd, path);
      && !IsSymlink(env.fs, abs) && IsDirectory(env.fs, abs) && env.fs[abs].kind.listable
    ensures var abs := AbsolutePath(env.cwd, path);
      && abs in env.fs && IsNormal(abs)
      && var subs := Listing(env.fs[abs].kind.entries, includeAll);
      && (forall i :: 0 <= i < |subs| ==> subs[i] != [] && '/' !in subs[i])
      && Walk(env, path, recursive, includeAll) == WalkEntries(env, abs, subs, ChildFlag(recursive), includeAll)
  {
    DirectoryNode(env.fs, AbsolutePath(env.cwd, path));
    AbsoluteIsNormal(env.cwd, path);
  }

  /** The walk from one entry is part of the walk over the entries. */
  lemma {:induction false} EntryWithin(env: Env, dir: string, subs: seq<string>, sub: string, includeAll: bool)
    requires WellFormed(env.fs) && dir in env.fs && IsNormal(dir)
    requires forall i :: 0 <= i < |subs| ==> subs[i] != [] && '/' !in subs[i]
    requires sub in subs && !DotsLine(sub)
    ensures forall q :: q in Walk(env, Join(dir, sub), TrueValue, includeAll) ==>
      q in WalkEntries(env, dir, subs, TrueValue, includeAll)
    decreases |subs|
  {
    var init := subs[..|subs| - 1];
    if sub == subs[|subs| - 1] {
      assert WalkEntry(env, dir, sub, TrueValue, includeAll) == Walk(env, Join(dir, sub), TrueValue, includeAll);
    } else {
      assert sub in init by {
        assert subs == init + [subs[|subs| - 1]];
      }
      EntryWithin(env, dir, init, sub, includeAll);
    }
  }

  /** `Array#delete(path)`: every entry equal to `path` goes, the others
      stay. */
  function Removed(s: seq<string>, path: string): (r: seq<string>)
    ensures path !in r
    ensures forall x :: x != path ==> multiset(r)[x] == multiset(s)[x]
  {
    if s == [] then []
    else
      assert s == [s[0]] + s[1..];
      (if s[0] == path then [] else [s[0]]) + Removed(s[1..], path)
  }

  /** Removal keeps the order of what stays: it works piece by piece. */
  lemma {:induction false} RemovedConcat(a: seq<string>, b: seq<string>, path: string)
    ensures Removed(a + b, path) == Removed(a, path) + Removed(b, path)
  {
    if a != [] {
      assert (a + b)[0] == a[0] && (a + b)[1..] == a[1..] + b;
      RemovedConcat(a[1..], b, path);
    } else {
      assert a + b == b;
    }
  }

  /** Removing an absent path changes nothing. */
  lemma {:induction false} RemovedAbsent(s: seq<string>, path: string)
    requires path !in s
    ensures Removed(s, path) == s
  {
    if s != [] {
      RemovedAbsent(s[1..], path);
    }
  }

  /** `compact! sort! uniq!`: ascending by `String#<=>`, each path once.
      No entry is nil, since only `add` writes the list. */
  function Tidied(s: seq<string>): (r: seq<string>)
    ensures StrictlySorted(r, Less)
    ensures forall x :: x in r <==> x in s
  {
    LessIsStrictTotalOrder();
    var sorted := Sort(s, Less);
    UniqOfSorted(sorted, Less);
    assert forall x :: x in sorted <==> x in s by {
      assert forall x :: x in sorted <==> x in multiset(sorted);
    }
    Uniq(sorted)
  }

  /** A tidied list is the one strictly ascending list of its paths, so
      tidying twice is tidying once. */
  lemma TidiedUnique(s: seq<string>, t: seq<string>)
    requires StrictlySorted(t, Less) && forall x :: x in t <==> x in s
    ensures Tidied(s) == t
  {
    LessIsStrictTotalOrder();
    StrictlySortedUnique(Tidied(s), t, Less);
  }

  lemma TidiedIdempotent(s: seq<string>)
    ensures Tidied(Tidied(s)) == Tidied(s)
  {
    TidiedUnique(Tidied(s), Tidied(s));
  }

  /** The list of collected files. */
  class Directory {
    var files: seq<string>

    constructor ()
      ensures files == []
    {
      files := [];
    }

    /** `add(path, recursive:, include_all:)`: appends what the walk from
        `path` collects. */
    method Add(env: Env, path: string, recursive: RubyValue, includeAll: bool)
      requires WellFormed(env.fs)
      modifies this
      ensures files == old(files) + Walk(env, path, recursive, includeAll)
      decreases Scope(env.fs, AbsolutePath(env.cwd, path)), 2
    {
      var abs := AbsolutePath(env.cwd, path);
      if IsSymlink(env.fs, abs) {
        return;
      }
      if IsFile(env.fs, abs) {
        files := files + [abs];
      } else if IsDirectory(env.fs, abs) && recursive.Truthy() {
        DirectoryNode(env.fs, abs);
        AbsoluteIsNormal(env.cwd, path);
        var node := env.fs[abs].kind;
        if node.listable {
          AddEntries(env, abs, Listing(node.entries, includeAll), ChildFlag(recursive), includeAll);
        }
      }
    }

    /** The loop over the listed entries of a directory. */
    method AddEntries(env: Env, abs: string, subs: seq<string>, flag: RubyValue, includeAll: bool)
      requires WellFormed(env.fs) && abs in env.fs && IsNormal(abs)
      requires forall i :: 0 <= i < |subs| ==> subs[i] != [] && '/' !in subs[i]
      modifies this
      ensures files == old(files) + WalkEntries(env, abs, subs, flag, includeAll)
      decreases Scope(env.fs, abs), 1
    {
      ghost var before := files;
      for i := 0 to |subs|
        invariant files == before + WalkEntries(env, abs, subs[..i], flag, includeAll)
      {
        AddEntryAt(env, abs, subs, i, flag, includeAll, before);
      }
      assert subs[..|subs|] == subs;
    }

    /** The `i`-th turn of the loop keeps the walk's prefix in `files`. */
    method AddEntryAt(env: Env, abs: string, subs: seq<string>, i: nat, flag: RubyValue, includeAll: bool, ghost before: seq<string>)
      requires WellFormed(env.fs) && abs in env.fs && IsNormal(abs)
      requires forall i :: 0 <= i < |subs| ==> subs[i] != [] && '/' !in subs[i]
      requires i < |subs|
      requires files == before + WalkEntries(env, abs, subs[..i], flag, includeAll)
      modifies this
      ensures files == before + WalkEntries(env, abs, subs[..i + 1], flag, includeAll)
      decreases Scope(env.fs, abs), 0, 1
    {
      EntryStep(env, abs, subs, i, flag, includeAll, before);
      AddEntry(env, abs, subs[i], flag, includeAll);
    }

    /** One turn of the loop: `next if sub.match(/^\.+$/)`, else
        `add(File.join(absolute_path, sub), ...)`. */
    method AddEntry(env: Env, abs: string, sub: string, flag: RubyValue, includeAll: bool)
      requires WellFormed(env.fs) && abs in env.fs && IsNormal(abs)
      requires sub != [] && '/' !in sub
      modifies this
      ensures files == old(files) + WalkEntry(env, abs, sub, flag, includeAll)
      decreases Scope(env.fs, abs), 0, 0
    {
      if !DotsLine(sub) {
        var child := Join(abs, sub);
        NotDotsIsPlain(sub);
        JoinNormal(abs, sub);
        NormalIsAbsolute(env.cwd, child);
        ScopeShrinks(env.fs, abs, child);
        Add(env, child, flag, includeAll);
      }
    }

    /** `remove(path)`. */
    method Remove(path: string)
      modifies this
      ensures files == Removed(old(files), path)
    {
      files := Removed(files, path);
    }

    /** `tidy!`: returns the directory itself. */
    method Tidy() returns (self: Directory)
      modifies this
      ensures self == this && files == Tidied(old(files))
    {
      files := Tidied(files);
      self := this;
    }

    /** `size`. */
    function Size(): (n: nat)
      reads this
      ensures n == |files|
    {
      |files|
    }

    /** `clone`: a new directory holding the same paths, entry by entry. */
    method Clone() returns (copy: Directory)
      ensures fresh(copy) && copy.files == files
    {
      copy := new Directory();
      for i := 0 to |files|
        invariant copy.files == files[..i]
      {
        copy.files := copy.files + [files[i]];
      }
      assert files[..|files|] == files;
    }
  }

  /** The copy is a different object: changing the original afterwards
      leaves the copy as it was. */
  method CloneIsIndependent(d: Directory, path: string) returns (copy: Directory)
    modifies d
    ensures copy.files == old(d.files) && d.files == Removed(old(d.files), path)
  {
    copy := d.Clone();
    d.Remove(path);
  }
}
