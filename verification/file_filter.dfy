/** `FileFilter`: ignore globs, read from a file or added one by one, and
    the rule that decides whether a path is let through. Globs are matched
    by `File.fnmatch` with `File::FNM_DOTMATCH` only: backslash escapes,
    `*` and `?` cross slashes and match a leading dot, and there are no
    braces and no case folding. */
module Filtering {
  import opened Wrappers
  import opened Text
  import opened Paths
  import opened FileSystem

  /** A bracket expression after its `[`: a leading `!` or `^` negates it,
      items are single characters or ranges `a-z` (a backslash escapes the
      next character) and `]` closes it. Gives what follows the `]` when
      `c` is accepted, None when it is not or the bracket never closes. */
  function Bracket(q: string, c: char): (rest: Option<string>)
    ensures rest.Some? ==> |rest.value| < |q|
  {
    var negated := q != [] && (q[0] == '!' || q[0] == '^');
    var body := if negated then q[1..] else q;
    match BracketItems(body, c, false)
    case None => None
    case Some((ok, rest)) => if ok == negated then None else Some(rest)
  }

  /** The items of a bracket up to its `]`, with whether one of them (or
      an earlier one, `ok`) accepts `c`. */
  function BracketItems(p: string, c: char, ok: bool): (r: Option<(bool, string)>)
    ensures r.Some? ==> |r.value.1| < |p| && (ok ==> r.value.0)
    decreases |p|
  {
    if p == [] then None
    else if p[0] == ']' then Some((ok, p[1..]))
    else
      match BracketItem(p)
      case None => None
      case Some((lo, hi, rest)) => BracketItems(rest, c, ok || c == lo || c == hi || lo <= c <= hi)
  }

  /** The first item of a bracket and what follows it: a character (a
      backslash escapes the next one), given as a range from it to itself,
      or a range `a-z`, which accepts its two ends and everything between
      them. None when the text ends inside the item. */
  function BracketItem(p: string): (r: Option<(char, char, string)>)
    ensures r.Some? ==> |r.value.2| < |p|
  {
    var t1 := if p != [] && p[0] == '\\' then 1 else 0;
    if t1 >= |p| then None
    else
      var lo, after := p[t1], p[t1 + 1..];
      if after != [] && after[0] == '-' && (|after| == 1 || after[1] != ']') then
        var t2 := if |after| >= 2 && after[1] == '\\' then 2 else 1;
        if t2 >= |after| then None
        else Some((lo, after[t2], after[t2 + 1..]))
      else Some((lo, lo, after))
  }

  /** `File.fnmatch(pattern, name, File::FNM_DOTMATCH)`. A trailing
      backslash escapes nothing and matches the empty rest. */
  predicate Match(pattern: string, name: string)
    decreases |pattern|, |name|
  {
    if pattern == [] then name == []
    else if pattern[0] == '*' then
      Match(pattern[1..], name) || (name != [] && Match(pattern, name[1..]))
    else if pattern[0] == '?' then
      name != [] && Match(pattern[1..], name[1..])
    else if pattern[0] == '[' then
      name != [] &&
      match Bracket(pattern[1..], name[0])
      case None => false
      case Some(rest) => Match(rest, name[1..])
    else if pattern[0] == '\\' then
      if |pattern| == 1 then name == []
      else name != [] && name[0] == pattern[1] && Match(pattern[2..], name[1..])
    else
      name != [] && name[0] == pattern[0] && Match(pattern[1..], name[1..])
  }

  /** A pattern with no special character: it stands for itself. */
  predicate Literal(pattern: string) {
    forall k :: 0 <= k < |pattern| ==> pattern[k] !in "*?[\\"
  }

  /** A literal pattern matches exactly the name it spells. */
  lemma {:induction false} LiteralMatch(pattern: string, name: string)
    requires Literal(pattern)
    ensures Match(pattern, name) <==> name == pattern
    decreases |pattern|
  {
    if pattern != [] {
      assert pattern[0] !in "*?[\\";
      assert Literal(pattern[1..]) by {
        assert forall k :: 0 <= k < |pattern[1..]| ==> pattern[1..][k] == pattern[k + 1];
      }
      if name != [] {
        LiteralMatch(pattern[1..], name[1..]);
        assert name == [name[0]] + name[1..];
        assert pattern == [pattern[0]] + pattern[1..];
      }
    }
  }

  /** `*` matches every name, a leading dot included. */
  lemma {:induction false} StarMatchesAll(name: string)
    ensures Match("*", name)
    decreases |name|
  {
    if name != [] {
      StarMatchesAll(name[1..]);
    }
  }

  /** `?` matches exactly the names of one character. */
  lemma QuestionMatchesOne(name: string)
    ensures Match("?", name) <==> |name| == 1
  {
  }

  /** `*` followed by a literal matches exactly the names that end with
      that literal: `*.tmp` ignores every name ending in `.tmp`. */
  lemma {:induction false} StarSuffix(suffix: string, name: string)
    requires Literal(suffix)
    ensures Match("*" + suffix, name) <==> |suffix| <= |name| && name[|name| - |suffix|..] == suffix
    decreases |name|
  {
    var p := "*" + suffix;
    assert p[0] == '*' && p[1..] == suffix;
    LiteralMatch(suffix, name);
    if name != [] {
      StarSuffix(suffix, name[1..]);
      if |suffix| <= |name| - 1 {
        assert name[1..][|name[1..]| - |suffix|..] == name[|name| - |suffix|..];
      }
    } else {
      assert Match(p, name) <==> Match(suffix, name);
    }
  }

  /** Wildcards match a leading dot, and a bracket reads its items. */
  lemma MatchExamples()
    ensures Match("*", ".git") && Match(".*", ".git")
    ensures Match("[a-c]", "b") && !Match("[!a-c]", "b") && !Match("[a-c", "b")
  {
    StarMatchesAll(".git");
    StarMatchesAll("git");
    assert Match(".*", ".git") by {
      assert ".*"[1..] == "*" && ".git"[1..] == "git";
    }
    assert BracketItems("a-c]", 'b', false) == Some((true, "")) by {
      assert "a-c]"[1..] == "-c]" && "-c]"[2..] == "]";
    }
    assert Match("[a-c]", "b") by {
      assert "[a-c]"[1..] == "a-c]";
    }
    assert BracketItems("a-c]", 'b', false) == Some((true, ""));
    assert !Match("[!a-c]", "b") by {
      assert "[!a-c]"[1..] == "!a-c]" && "!a-c]"[1..] == "a-c]";
    }
    assert !Match("[a-c", "b") by {
      assert "[a-c"[1..] == "a-c" && "a-c"[1..] == "-c" && "-c"[2..] == "";
    }
  }

  /** A line of the ignore file that holds a glob: not blank, and not a
      comment once stripped. Lines come from `readlines`, so a stripped
      line holds no newline and `/^#/` can only match at its start. */
  predicate HoldsGlob(line: string) {
    var s := Strip(line);
    s != [] && s[0] != '#'
  }

  /** The globs the lines of an ignore file contribute, in file order:
      each kept line stripped. */
  function IgnoreGlobs(lines: seq<string>): (globs: seq<string>)
    ensures |globs| <= |lines|
    ensures forall i :: 0 <= i < |globs| ==> globs[i] != [] && globs[i][0] != '#'
  {
    if lines == [] then []
    else
      var init, last := lines[..|lines| - 1], lines[|lines| - 1];
      IgnoreGlobs(init) + (if HoldsGlob(last) then [Strip(last)] else [])
  }

  /** Exactly the stripped globs of the kept lines are collected: each
      collected glob comes from a line, and each line that holds one
      contributes it. */
  lemma {:induction false} IgnoreGlobsMembers(lines: seq<string>)
    ensures forall g :: g in IgnoreGlobs(lines) ==> exists i :: 0 <= i < |lines| && HoldsGlob(lines[i]) && Strip(lines[i]) == g
    ensures forall i :: 0 <= i < |lines| && HoldsGlob(lines[i]) ==> Strip(lines[i]) in IgnoreGlobs(lines)
  {
    if lines != [] {
      var init, last := lines[..|lines| - 1], lines[|lines| - 1];
      IgnoreGlobsMembers(init);
      forall g | g in IgnoreGlobs(lines)
        ensures exists i :: 0 <= i < |lines| && HoldsGlob(lines[i]) && Strip(lines[i]) == g
      {
        if g in IgnoreGlobs(init) {
          var i :| 0 <= i < |init| && HoldsGlob(init[i]) && Strip(init[i]) == g;
          assert lines[i] == init[i];
        } else {
          assert HoldsGlob(lines[|lines| - 1]) && Strip(lines[|lines| - 1]) == g;
        }
      }
      forall i | 0 <= i < |lines| && HoldsGlob(lines[i])
        ensures Strip(lines[i]) in IgnoreGlobs(lines)
      {
        if i < |init| {
          assert lines[i] == init[i];
        }
      }
    }
  }

  /** A line of `readlines` holds no newline once stripped. */
  lemma StrippedLineHasNoNewline(line: string)
    requires line != [] && '\n' !in line[..|line| - 1]
    ensures '\n' !in Strip(line)
  {
    forall k | 0 <= k < |line| - 1 ensures line[k] != '\n' {
      assert line[k] == line[..|line| - 1][k];
    }
    LStripKeepsNewlineLast(line);
    RStripDropsNewline(LStrip(line));
  }

  /** A newline can only be the last character. */
  predicate NewlineOnlyLast(s: string) {
    forall k :: 0 <= k < |s| - 1 ==> s[k] != '\n'
  }

  lemma {:induction false} LStripKeepsNewlineLast(s: string)
    requires NewlineOnlyLast(s)
    ensures NewlineOnlyLast(LStrip(s))
  {
    if s != [] && IsStrippable(s[0]) {
      assert NewlineOnlyLast(s[1..]) by {
        forall k | 0 <= k < |s| - 2 ensures s[1..][k] != '\n' {
          assert s[1..][k] == s[k + 1];
        }
      }
      LStripKeepsNewlineLast(s[1..]);
    }
  }

  lemma {:induction false} RStripDropsNewline(s: string)
    requires NewlineOnlyLast(s)
    ensures '\n' !in RStrip(s)
  {
    if s != [] && IsStrippable(s[|s| - 1]) {
      var init := s[..|s| - 1];
      assert NewlineOnlyLast(init) by {
        forall k | 0 <= k < |init| - 1 ensures init[k] != '\n' {
          assert init[k] == s[k];
        }
      }
      RStripDropsNewline(init);
    } else {
      forall k | 0 <= k < |s| ensures s[k] != '\n' {
        if k == |s| - 1 {
          assert !IsStrippable(s[k]);
        }
      }
    }
  }

  /** One more line adds its glob, if it holds one. */
  lemma IgnoreGlobsStep(lines: seq<string>, i: nat, before: seq<string>)
    requires i < |lines|
    ensures before + IgnoreGlobs(lines[..i + 1])
            == before + IgnoreGlobs(lines[..i]) + (if HoldsGlob(lines[i]) then [Strip(lines[i])] else [])
  {
    var p := lines[..i + 1];
    assert p[..|p| - 1] == lines[..i] && p[|p| - 1] == lines[i];
    var x, y := IgnoreGlobs(lines[..i]), if HoldsGlob(lines[i]) then [Strip(lines[i])] else [];
    assert IgnoreGlobs(p) == x + y;
    assert before + (x + y) == before + x + y;
  }

  /** What excludes a path with basename `name`: the glob matches the
      name, or the glob ends in `/`, the path is a directory and the glob
      without its slash matches the name. */
  predicate Excludes(glob: string, name: string, isDirectory: bool) {
    || Match(glob, name)
    || (glob != [] && glob[|glob| - 1] == '/' && isDirectory && Match(glob[..|glob| - 1], name))
  }

  /** A glob `build/` excludes a directory named `build` and lets a file
      of that name through. */
  lemma DirectoryGlob()
    ensures Excludes("build/", "build", true) && !Excludes("build/", "build", false)
  {
    assert Literal("build/") && Literal("build");
    LiteralMatch("build/", "build");
    assert "build/"[..5] == "build";
    LiteralMatch("build", "build");
  }

  /** The ignore list. */
  class FileFilter {
    var globs: seq<string>
    /** `loaded`: nil until `load` has run, then true. */
    var loaded: RubyValue

    constructor ()
      ensures globs == [] && loaded == NilValue
    {
      globs := [];
      loaded := NilValue;
    }

    /** `add(glob)`: only a String is appended. */
    method Add(glob: Dyn<string>)
      modifies this
      ensures glob.Instance? ==> globs == old(globs) + [glob.value]
      ensures glob.OtherObject? ==> globs == old(globs)
      ensures loaded == old(loaded)
    {
      if glob.Instance? {
        globs := globs + [glob.value];
      }
    }

    /** `load(source)`: when `source` names a readable regular file, the
        glob of each of its lines that holds one is appended, in order;
        `loaded` is true afterwards whether or not anything was read. */
    method Load(env: Env, source: string)
      modifies this
      ensures var abs := AbsolutePath(env.cwd, source);
        globs == old(globs) +
          if IsFile(env.fs, abs) && Stat(env.fs, abs).value.kind.readable
          then IgnoreGlobs(Lines(Stat(env.fs, abs).value.kind.content)) else []
      ensures loaded == TrueValue
    {
      var abs := AbsolutePath(env.cwd, source);
      if IsFile(env.fs, abs) && Stat(env.fs, abs).value.kind.readable {
        LoadLines(Lines(Stat(env.fs, abs).value.kind.content));
      }
      loaded := TrueValue;
    }

    /** The loop of `load` over the lines read. */
    method LoadLines(lines: seq<string>)
      modifies this
      ensures globs == old(globs) + IgnoreGlobs(lines) && loaded == old(loaded)
    {
      ghost var before := globs;
      for i := 0 to |lines|
        invariant globs == before + IgnoreGlobs(lines[..i]) && loaded == old(loaded)
      {
        IgnoreGlobsStep(lines, i, before);
        var glob := Strip(lines[i]);
        if glob != [] && glob[0] != '#' {
          globs := globs + [glob];
        }
      }
      assert lines[..|lines|] == lines;
    }

    /** `allows?(path)`: true when no glob excludes the path's basename;
        the scan stops at the first glob that does. */
    method Allows(env: Env, path: string) returns (allowed: bool)
      ensures allowed <==> forall i :: 0 <= i < |globs| ==>
        !Excludes(globs[i], Basename(path), IsDirectory(env.fs, AbsolutePath(env.cwd, path)))
    {
      if globs == [] {
        return true;
      }
      var name := Basename(path);
      var isDirectory := IsDirectory(env.fs, AbsolutePath(env.cwd, path));
      for i := 0 to |globs|
        invariant forall j :: 0 <= j < i ==> !Excludes(globs[j], name, isDirectory)
      {
        var ignore := globs[i];
        if Match(ignore, name) {
          return false;
        }
        if ignore != [] && ignore[|ignore| - 1] == '/' && isDirectory && Match(ignore[..|ignore| - 1], name) {
          return false;
        }
      }
      return true;
    }
  }
}
