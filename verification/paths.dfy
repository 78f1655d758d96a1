/** Path strings as `File.absolute_path`, `File.join` and `File.basename`
    treat them on a POSIX system. */
module Paths {
  import opened Text

  /** A name that stands for one directory entry: what `Dir.glob('*')`
      yields once the all-dots names are set aside. */
  predicate Plain(name: string) {
    name != [] && '/' !in name && name != "." && name != ".."
  }

  predicate AllPlain(segs: seq<string>) {
    forall i :: 0 <= i < |segs| ==> Plain(segs[i])
  }

  /** One component of a path applied to the resolved components so far:
      an empty component or `.` stays put, `..` climbs (never above the
      root), anything else descends. */
  function Step(base: seq<string>, part: string): (r: seq<string>)
    ensures AllPlain(base) && '/' !in part ==> AllPlain(r)
  {
    if part == "" || part == "." then base
    else if part == ".." then (if base == [] then [] else base[..|base| - 1])
    else base + [part]
  }

  function Resolve(base: seq<string>, parts: seq<string>): (r: seq<string>)
    ensures AllPlain(base) && (forall i :: 0 <= i < |parts| ==> '/' !in parts[i]) ==> AllPlain(r)
    decreases |parts|
  {
    if parts == [] then base else Resolve(Step(base, parts[0]), parts[1..])
  }

  /** The components of a path, resolved from the root. */
  function Segments(p: string): (segs: seq<string>)
    ensures AllPlain(segs)
  {
    Resolve([], SplitOn(p, '/'))
  }

  /** "/a/b" for ["a", "b"]. */
  function Prefixed(segs: seq<string>): string {
    if segs == [] then "" else "/" + segs[0] + Prefixed(segs[1..])
  }

  /** The text of a resolved path: the root is "/", and no other path ends
      with a slash. */
  function Render(segs: seq<string>): (p: string)
    ensures p != [] && p[0] == '/'
  {
    if segs == [] then "/" else Prefixed(segs)
  }

  /** `File.absolute_path(p)` with `cwd` as the working directory: a
      relative path is resolved against it, `.` and `..` and repeated or
      trailing slashes are resolved away, and no symbolic link is read. */
  function AbsolutePath(cwd: string, p: string): string {
    var base := if p != [] && p[0] == '/' then [] else Segments(cwd);
    Render(Resolve(base, SplitOn(p, '/')))
  }

  /** A path in the form `File.absolute_path` returns. */
  predicate IsNormal(p: string) {
    p == Render(Segments(p))
  }

  /** Plain components are pushed one by one. */
  lemma {:induction false} ResolvePlain(base: seq<string>, segs: seq<string>)
    requires AllPlain(segs)
    ensures Resolve(base, segs) == base + segs
    decreases |segs|
  {
    if segs != [] {
      ResolvePlain(base + [segs[0]], segs[1..]);
      assert base + [segs[0]] + segs[1..] == base + segs;
    }
  }

  /** Splitting a component followed by rendered components at the
      slashes gives back the components. */
  lemma {:induction false} SplitPrefixed(seg: string, rest: seq<string>)
    requires '/' !in seg && AllPlain(rest)
    ensures SplitOn(seg + Prefixed(rest), '/') == [seg] + rest
    decreases |rest|
  {
    if rest == [] {
      assert seg + Prefixed(rest) == seg;
    } else {
      var tail := rest[0] + Prefixed(rest[1..]);
      assert Prefixed(rest) == "/" + rest[0] + Prefixed(rest[1..]);
      assert seg + Prefixed(rest) == seg + ['/'] + tail;
      SplitOnAppend(seg, tail, '/');
      assert '/' !in rest[0] && AllPlain(rest[1..]) by {
        assert Plain(rest[0]);
        assert forall i :: 0 <= i < |rest[1..]| ==> rest[1..][i] == rest[i + 1];
      }
      SplitPrefixed(rest[0], rest[1..]);
      assert [rest[0]] + rest[1..] == rest;
    }
  }

  /** A rendered path of plain components resolves to those components. */
  lemma SegmentsOfRender(segs: seq<string>)
    requires AllPlain(segs)
    ensures Segments(Render(segs)) == segs
  {
    if segs == [] {
      assert "/" == [] + ['/'] + [];
      SplitOnAppend([], [], '/');
      assert SplitOn("/", '/') == ["", ""];
    } else {
      SplitPrefixed([], segs);
      assert [] + Prefixed(segs) == Prefixed(segs);
      ResolvePlain([], segs);
    }
  }

  /** `File.absolute_path` returns a normal path. */
  lemma AbsoluteIsNormal(cwd: string, p: string)
    ensures IsNormal(AbsolutePath(cwd, p))
    ensures AbsolutePath(cwd, p) != [] && AbsolutePath(cwd, p)[0] == '/'
  {
    var base := if p != [] && p[0] == '/' then [] else Segments(cwd);
    SegmentsOfRender(Resolve(base, SplitOn(p, '/')));
  }

  /** A normal path is its own absolute path, whatever the working
      directory. */
  lemma NormalIsAbsolute(cwd: string, p: string)
    requires IsNormal(p)
    ensures AbsolutePath(cwd, p) == p
  {
    var segs := Segments(p);
    var r := Render(segs);
    assert r[0] == '/';
    if segs == [] {
      assert SplitOn("/", '/') == ["", ""] by {
        assert "/" == [] + ['/'] + [];
        SplitOnAppend([], [], '/');
      }
    } else {
      SplitPrefixed([], segs);
      assert [] + Prefixed(segs) == Prefixed(segs);
      ResolvePlain([], segs);
    }
  }

  /** Absolute paths are idempotent. */
  lemma AbsolutePathIdempotent(cwd: string, cwd2: string, p: string)
    ensures AbsolutePath(cwd2, AbsolutePath(cwd, p)) == AbsolutePath(cwd, p)
  {
    AbsoluteIsNormal(cwd, p);
    NormalIsAbsolute(cwd2, AbsolutePath(cwd, p));
  }

  function TrimTrailingSlashes(s: string): (r: string)
    ensures |r| <= |s| && r == s[..|r|]
    ensures r == [] || r[|r| - 1] != '/'
    ensures forall i :: |r| <= i < |s| ==> s[i] == '/'
  {
    if s != [] && s[|s| - 1] == '/' then TrimTrailingSlashes(s[..|s| - 1]) else s
  }

  /** `File.join(dir, name)`: one slash between the two parts, unless the
      first already ends with one; a second part that starts with a slash
      replaces the trailing slashes of the first. */
  function Join(dir: string, name: string): string {
    if name != [] && name[0] == '/' then TrimTrailingSlashes(dir) + name
    else if dir != [] && dir[|dir| - 1] == '/' then dir + name
    else dir + "/" + name
  }

  lemma {:induction false} PrefixedAppend(segs: seq<string>, name: string)
    ensures Prefixed(segs + [name]) == Prefixed(segs) + "/" + name
    decreases |segs|
  {
    if segs == [] {
      assert [name][1..] == [];
    } else {
      assert (segs + [name])[1..] == segs[1..] + [name];
      PrefixedAppend(segs[1..], name);
    }
  }

  lemma {:induction false} PrefixedEnds(segs: seq<string>)
    requires AllPlain(segs) && segs != []
    ensures |Prefixed(segs)| > 1 && Prefixed(segs)[|Prefixed(segs)| - 1] == segs[|segs| - 1][|segs[|segs| - 1]| - 1]
    decreases |segs|
  {
    var tail := Prefixed(segs[1..]);
    assert Prefixed(segs) == "/" + segs[0] + tail;
    if |segs| > 1 {
      assert AllPlain(segs[1..]) by {
        assert forall i :: 0 <= i < |segs[1..]| ==> segs[1..][i] == segs[i + 1];
      }
      PrefixedEnds(segs[1..]);
      assert segs[1..][|segs[1..]| - 1] == segs[|segs| - 1];
    } else {
      assert tail == "";
      assert Plain(segs[0]);
    }
  }

  /** Joining a plain name to a normal directory descends into it: the
      result is the normal path one component deeper, so it is longer. */
  lemma JoinNormal(dir: string, name: string)
    requires IsNormal(dir) && Plain(name)
    ensures Join(dir, name) == Render(Segments(dir) + [name])
    ensures IsNormal(Join(dir, name)) && |Join(dir, name)| > |dir|
  {
    var segs := Segments(dir);
    if segs == [] {
      assert [name][1..] == [];
      assert Render([name]) == "/" + name + "";
    } else {
      PrefixedEnds(segs);
      assert '/' !in segs[|segs| - 1];
      PrefixedAppend(segs, name);
    }
    assert AllPlain(segs + [name]);
    SegmentsOfRender(segs + [name]);
  }

  /** The last component of a path: what follows the last slash. */
  function AfterLastSlash(s: string): (r: string)
    ensures '/' !in r && |r| <= |s| && r == s[|s| - |r|..]
    ensures |r| < |s| ==> s[|s| - |r| - 1] == '/'
  {
    if s == [] || s[|s| - 1] == '/' then [] else AfterLastSlash(s[..|s| - 1]) + [s[|s| - 1]]
  }

  /** `File.basename(p)`: the last component once trailing slashes are
      dropped; "/" for a path of slashes only. */
  function Basename(p: string): (r: string)
    ensures '/' in r ==> r == "/"
    ensures p != [] ==> r != []
  {
    var t := TrimTrailingSlashes(p);
    if p == [] then []
    else if t == [] then "/"
    else AfterLastSlash(t)
  }

  /** The directory part of a path: everything up to its last slash. */
  function DirPart(s: string): (d: string)
    ensures |d| <= |s| && d == s[..|d|] && (d == [] || d[|d| - 1] == '/')
  {
    s[..|s| - |AfterLastSlash(s)|]
  }

  lemma {:induction false} AfterLastSlashOfJoined(x: string, name: string)
    requires x != [] && x[|x| - 1] == '/' && '/' !in name
    ensures AfterLastSlash(x + name) == name
    decreases |name|
  {
    if name == [] {
      assert x + name == x;
    } else {
      var s, init, last := x + name, name[..|name| - 1], name[|name| - 1];
      assert last != '/' by {
        assert name[|name| - 1] in name;
      }
      assert '/' !in init by {
        assert forall i :: 0 <= i < |init| ==> init[i] == name[i];
      }
      assert s[..|s| - 1] == x + init && s[|s| - 1] == last;
      assert AfterLastSlash(s) == AfterLastSlash(x + init) + [last];
      AfterLastSlashOfJoined(x, init);
      assert init + [last] == name;
    }
  }

  /** The basename of a joined path is the name that was joined. */
  lemma BasenameOfJoin(dir: string, name: string)
    requires Plain(name)
    ensures Basename(Join(dir, name)) == name
  {
    var x := if dir != [] && dir[|dir| - 1] == '/' then dir else dir + "/";
    assert Join(dir, name) == x + name;
    assert TrimTrailingSlashes(x + name) == x + name;
    AfterLastSlashOfJoined(x, name);
  }

  /** The directory holding a path; the root is its own parent. */
  function Parent(p: string): (r: string)
    ensures IsNormal(r)
  {
    var segs := Segments(p);
    var up := if segs == [] then [] else segs[..|segs| - 1];
    assert AllPlain(up);
    SegmentsOfRender(up);
    Render(up)
  }
}
