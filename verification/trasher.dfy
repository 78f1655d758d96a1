/** `Trasher`: the mode check, the dispatch between moving a file to the
    trash can and deleting it, and `uncollide_filename`, which renames
    `foo.txt` to `foo (1).txt`, `foo (2).txt`, … until the name is free.
    The two regular expressions of `uncollide_filename` are modelled as
    Ruby's engine runs them: leftmost match, greedy repetitions that give
    back one character at a time, optional groups tried first, and `$`
    matching before any newline as well as at the end. */
module Trashing {
  import opened Wrappers
  import opened Text
  import opened Paths

  /** `MODES = %i(remove trash)`. */
  datatype Mode = RemoveMode | TrashMode

  /** The symbol a mode is named by. */
  function ModeName(m: Mode): string {
    match m
    case RemoveMode => "remove"
    case TrashMode => "trash"
  }

  /** `MODES.include?(mode)`, by the symbol's name. */
  function ModeNamed(name: string): (r: Option<Mode>)
    ensures r.Some? <==> name == "remove" || name == "trash"
    ensures r.Some? ==> ModeName(r.value) == name
  {
    if name == "remove" then Some(RemoveMode)
    else if name == "trash" then Some(TrashMode)
    else None
  }

  /** What `trash` does to the file system. */
  datatype Action = Move(from: string, to: string) | Delete(path: string)
  {
    /** The file the action takes away from where it was. */
    function Subject(): string {
      if Move? then from else path
    }
  }

  /** The paths that exist once the action is done. */
  function Apply(a: Action, existing: set<string>): (r: set<string>)
    ensures a.Subject() !in r || (a.Move? && a.to == a.from)
    ensures a.Move? ==> a.to in r
    ensures forall p :: p in existing && p != a.Subject() ==> p in r
  {
    match a
    case Move(from, to) => existing - {from} + {to}
    case Delete(p) => existing - {p}
  }

  /** The class `[^.]` of the extension's characters as written, and the
      class `[^./]` that keeps the extension inside the last name. */
  datatype ExtClass = NotDot | NotDotOrSlash

  predicate InClass(c: char, cls: ExtClass) {
    c != '.' && (cls == NotDotOrSlash ==> c != '/')
  }

  /** `$`: at the end of the text or before a newline. */
  predicate LineEnd(s: string, p: nat)
    requires p <= |s|
  {
    p == |s| || s[p] == '\n'
  }

  /** The end of the longest run of characters from `p` that `ok` accepts. */
  function RunEnd(s: string, p: nat, ok: char -> bool): (e: nat)
    requires p <= |s|
    ensures p <= e <= |s|
    ensures forall k :: p <= k < e ==> ok(s[k])
    ensures e < |s| ==> !ok(s[e])
    decreases |s| - p
  {
    if p < |s| && ok(s[p]) then RunEnd(s, p + 1, ok) else p
  }

  /** The largest position in `lo..hi` where `$` matches: where a greedy
      repetition that ends at `hi` first lets `$` succeed. */
  function LastLineEnd(s: string, lo: nat, hi: nat): (r: Option<nat>)
    requires hi <= |s|
    ensures r.Some? ==> lo <= r.value <= hi && LineEnd(s, r.value)
    ensures r.Some? ==> forall p :: r.value < p <= hi ==> !LineEnd(s, p)
    ensures r.None? ==> forall p :: lo <= p <= hi ==> !LineEnd(s, p)
    decreases hi
  {
    if hi < lo then None
    else if LineEnd(s, hi) then Some(hi)
    else if hi == 0 then None
    else LastLineEnd(s, lo, hi - 1)
  }

  /** Where a match of the regular expression ends, and where its
      captured extension starts, if it took one (the capture runs to the
      end of the match). */
  datatype Tail = Tail(end: nat, extension: Option<nat>)

  /** `(\.[^.]+)?$` from `q`: the extension is tried first, longest
      first; without it `$` must match at `q`. */
  function ExtensionAt(s: string, q: nat, cls: ExtClass): (r: Option<Tail>)
    requires q <= |s|
    ensures r.Some? ==> q <= r.value.end <= |s| && LineEnd(s, r.value.end)
    ensures r.Some? && r.value.extension.None? ==> r.value.end == q
    ensures r.Some? && r.value.extension.Some? ==>
      && r.value.extension.value == q && q + 2 <= r.value.end && s[q] == '.'
      && forall k :: q < k < r.value.end ==> InClass(s[k], cls)
  {
    var taken := if q < |s| && s[q] == '.' then LastLineEnd(s, q + 2, RunEnd(s, q + 1, c => InClass(c, cls))) else None;
    if taken.Some? then Some(Tail(taken.value, Some(q)))
    else if LineEnd(s, q) then Some(Tail(q, None))
    else None
  }

  /** `\(\d+\)` at `p`: the position after the closing parenthesis. */
  function ParenEnd(s: string, p: nat): (r: Option<nat>)
    requires p <= |s|
    ensures r.Some? ==>
      && p + 3 <= r.value <= |s| && s[p] == '(' && s[r.value - 1] == ')'
      && forall k :: p < k < r.value - 1 ==> IsDigit(s[k])
  {
    if p < |s| && s[p] == '(' then
      var e := RunEnd(s, p + 1, IsDigit);
      if p + 1 < e < |s| && s[e] == ')' then Some(e + 1) else None
    else None
  }

  /** `/\((\d+)\)(?:\.[^.]+)?$/` at `i`: the digits of group 1. */
  function NumberAt(s: string, i: nat, cls: ExtClass): (r: Option<string>)
    requires i <= |s|
    ensures r.Some? ==> r.value != [] && forall k :: 0 <= k < |r.value| ==> IsDigit(r.value[k])
  {
    match ParenEnd(s, i)
    case Some(e) => if ExtensionAt(s, e, cls).Some? then Some(s[i + 1..e - 1]) else None
    case None => None
  }

  /** `match`: the digits of the leftmost match from `i` on. */
  function FirstNumber(s: string, i: nat, cls: ExtClass): (r: Option<string>)
    requires i <= |s|
    ensures r.Some? ==> r.value != [] && forall k :: 0 <= k < |r.value| ==> IsDigit(r.value[k])
    decreases |s| - i
  {
    var here := NumberAt(s, i, cls);
    if here.Some? then here
    else if i == |s| then None
    else FirstNumber(s, i + 1, cls)
  }

  /** `absolute_path.match(…)&.[](1).to_i + 1`: one more than the number
      in the leftmost match, or 1 when nothing matches (`nil.to_i` is 0). */
  function NextNumber(s: string, cls: ExtClass): (n: nat)
    ensures n >= 1
  {
    var m := FirstNumber(s, 0, cls);
    if m.Some? then
      ToIOfDigits(m.value);
      DecimalValue(m.value) + 1
    else 1
  }

  /** `(?:\(\d+\))?(\.[^.]+)?$` at `p`, after the white space: the
      parenthesised number is tried first. */
  function AfterSpaces(s: string, p: nat, cls: ExtClass): (r: Option<Tail>)
    requires p <= |s|
    ensures r.Some? ==> p <= r.value.end <= |s| && LineEnd(s, r.value.end)
    ensures r.Some? && r.value.extension.Some? ==> p <= r.value.extension.value <= r.value.end
    ensures r.Some? && cls == NotDotOrSlash ==> forall k :: p <= k < r.value.end ==> s[k] != '/'
  {
    var paren := ParenEnd(s, p);
    var taken := if paren.Some? then ExtensionAt(s, paren.value, cls) else None;
    if taken.Some? then taken else ExtensionAt(s, p, cls)
  }

  /** `\s*` greedy from `i`: the alternatives after it are tried with the
      white space running to `p`, then one character shorter, down to none. */
  function SpacesThen(s: string, i: nat, p: nat, cls: ExtClass): (r: Option<Tail>)
    requires i <= p <= |s|
    requires forall k :: i <= k < p ==> IsSpace(s[k])
    ensures r.Some? ==> i <= r.value.end <= |s| && LineEnd(s, r.value.end)
    ensures r.Some? && r.value.extension.Some? ==> i <= r.value.extension.value <= r.value.end
    ensures r.Some? && cls == NotDotOrSlash ==> forall k :: i <= k < r.value.end ==> s[k] != '/'
    decreases p - i
  {
    forall k | i <= k < p
      ensures s[k] != '/'
    {
      assert IsSpace(s[k]);
    }
    var t := AfterSpaces(s, p, cls);
    if t.Some? then t
    else if p == i then None
    else SpacesThen(s, i, p - 1, cls)
  }

  /** `/\s*(?:\(\d+\))?(\.[^.]+)?$/` at `i`. */
  function SubAt(s: string, i: nat, cls: ExtClass): (r: Option<Tail>)
    requires i <= |s|
    ensures r.Some? ==> i <= r.value.end <= |s| && LineEnd(s, r.value.end)
    ensures r.Some? && r.value.extension.Some? ==> i <= r.value.extension.value <= r.value.end
    ensures r.Some? && cls == NotDotOrSlash ==> forall k :: i <= k < r.value.end ==> s[k] != '/'
  {
    SpacesThen(s, i, RunEnd(s, i, IsSpace), cls)
  }

  /** The leftmost match of the `sub` pattern from `i` on; there is always
      one, at the end of the text at the latest. */
  function FirstSub(s: string, i: nat, cls: ExtClass): (r: (nat, Tail))
    requires i <= |s|
    ensures i <= r.0 <= r.1.end <= |s| && SubAt(s, r.0, cls) == Some(r.1)
    decreases |s| - i
  {
    var t := SubAt(s, i, cls);
    if t.Some? || i == |s| then
      assert ExtensionAt(s, |s|, cls) == Some(Tail(|s|, None));
      (i, t.value)
    else FirstSub(s, i + 1, cls)
  }

  /** `absolute_path.sub(/\s*(?:\(\d+\))?(\.[^.]+)?$/, " (#{n})\\1")`: the
      leftmost match gives way to ` (n)` followed by the captured
      extension. */
  function Rename(s: string, n: nat, cls: ExtClass): string {
    var m := FirstSub(s, 0, cls);
    s[..m.0] + NumberTag(n) + Captured(s, m.1) + s[m.1.end..]
  }

  /** What `\\1` stands for: the captured extension, or nothing when the
      group did not take part in the match. */
  function Captured(s: string, t: Tail): string
    requires t.end <= |s| && (t.extension.Some? ==> t.extension.value <= t.end)
  {
    if t.extension.Some? then s[t.extension.value..t.end] else ""
  }

  /** The next name `uncollide_filename` tries: the number is taken from
      the `match`, and the `sub` puts it in. `NotDot` is the class as
      written, `NotDotOrSlash` the one that keeps the extension inside the
      last name. */
  function Candidate(s: string, cls: ExtClass): string {
    Rename(s, NextNumber(s, cls), cls)
  }

  /** `uncollide_filename(p)` over the paths that exist: `p` when it is
      free, otherwise the same for the next candidate. A candidate met a
      second time would recurse for ever, which Ruby ends with a
      SystemStackError. */
  function Uncollide(p: string, existing: set<string>, visited: set<string>, cls: ExtClass): (r: Result<string>)
    ensures p !in existing ==> r == Ok(p)
    ensures r.Ok? ==> r.value !in existing
    ensures r.Err? ==> r.error == StackError
    decreases existing - visited
  {
    if p !in existing then Ok(p)
    else if p in visited then Err(StackError)
    else Uncollide(Candidate(p, cls), existing, visited + {p}, cls)
  }

  /** A trasher: its mode, and in trash mode the trash can it found. */
  class Trasher {
    const mode: Mode
    /** `@trash_path`: nil in remove mode. */
    const trashPath: Option<string>

    constructor (mode: Mode, trashPath: Option<string>)
      requires mode == TrashMode <==> trashPath.Some?
      ensures this.mode == mode && this.trashPath == trashPath
    {
      this.mode := mode;
      this.trashPath := trashPath;
    }

    /** `trash(absolute_path)`: deletes the file in remove mode; in trash
        mode moves it into the trash can under its base name, renamed
        with the pattern as written until the name is free. */
    method Trash(path: string, existing: set<string>) returns (r: Result<Action>)
      requires mode == TrashMode ==> trashPath.Some?
      ensures mode == RemoveMode ==> r == Ok(Delete(path))
      ensures mode == TrashMode ==>
        var target := Uncollide(Join(trashPath.value, Basename(path)), existing, {}, NotDot);
        && (r.Ok? <==> target.Ok?)
        && (r.Ok? ==> r.value == Move(path, target.value) && r.value.to !in existing)
        && (r.Err? ==> r.error == StackError)
      ensures r.Ok? ==> r.value.Subject() == path
    {
      match mode
      case TrashMode =>
        var target := Uncollide(Join(trashPath.value, Basename(path)), existing, {}, NotDot);
        if target.Err? {
          return Err(target.error);
        }
        return Ok(Move(path, target.value));
      case RemoveMode =>
        return Ok(Delete(path));
    }
  }

  /** `Trasher.new(mode:)`: a mode other than `:remove` and `:trash` is an
      ArgumentError; trash mode needs the trash can, whose lookup (left
      to the caller) raises a ScriptError when there is none. */
  method NewTrasher(name: string, trashCan: Option<string>) returns (r: Result<Trasher>)
    ensures ModeNamed(name).None? ==> r == Err(ArgumentError)
    ensures name == "trash" && trashCan.None? ==> r == Err(ScriptError)
    ensures name == "remove" ==> r.Ok? && r.value.mode == RemoveMode && r.value.trashPath.None?
    ensures name == "trash" && trashCan.Some? ==>
      r.Ok? && r.value.mode == TrashMode && r.value.trashPath == trashCan
    ensures r.Ok? ==> fresh(r.value)
  {
    var mode := ModeNamed(name);
    if mode.None? {
      return Err(ArgumentError);
    }
    if mode.value == TrashMode && trashCan.None? {
      return Err(ScriptError);
    }
    var t := new Trasher(mode.value, if mode.value == TrashMode then trashCan else None);
    return Ok(t);
  }

  /** A last name without extension, as the class sees it: every dot of
      `pre` is followed, later in `pre`, by a character the class refuses.
      DotsClosedCases spells out what that means for each class. */
  predicate DotsClosed(pre: string, cls: ExtClass) {
    forall k :: 0 <= k < |pre| && pre[k] == '.' ==> exists m :: k < m < |pre| && !InClass(pre[m], cls)
  }

  /** For the class as written no dot may appear at all; for the corrected
      class every dot is followed by a `/`, so the last name has none. */
  lemma DotsClosedCases(pre: string)
    ensures DotsClosed(pre, NotDot) <==> '.' !in pre
    ensures DotsClosed(pre, NotDotOrSlash) <==>
      forall k :: 0 <= k < |pre| && pre[k] == '.' ==> exists m :: k < m < |pre| && pre[m] == '/'
  {
    if DotsClosed(pre, NotDot) {
      NoDotFrom(pre, 0);
    }
    if DotsClosed(pre, NotDotOrSlash) {
      forall k | 0 <= k < |pre| && pre[k] == '.'
        ensures exists m :: k < m < |pre| && pre[m] == '/'
      {
        SlashAfterDot(pre, k);
      }
    }
  }

  /** Under the class as written a dot always has a later dot, so from
      the last one on there is none. */
  lemma {:induction false} NoDotFrom(pre: string, k: nat)
    requires DotsClosed(pre, NotDot) && k <= |pre|
    ensures forall i :: k <= i < |pre| ==> pre[i] != '.'
    decreases |pre| - k
  {
    if k < |pre| {
      NoDotFrom(pre, k + 1);
    }
  }

  /** Under the corrected class the chain of later dots ends in a `/`. */
  lemma {:induction false} SlashAfterDot(pre: string, k: nat)
    requires DotsClosed(pre, NotDotOrSlash) && k < |pre| && pre[k] == '.'
    ensures exists m :: k < m < |pre| && pre[m] == '/'
    decreases |pre| - k
  {
    var m :| k < m < |pre| && !InClass(pre[m], NotDotOrSlash);
    if pre[m] == '.' {
      SlashAfterDot(pre, m);
    }
  }

  /** The part of a name before its number: one line, no `(`, and no
      white space at its end for `\s*` to take. */
  predicate Stem(pre: string) {
    '(' !in pre && '\n' !in pre && (pre == [] || !IsSpace(pre[|pre| - 1]))
  }

  /** An extension `\.[^.]+` that the class reads to the end of the text,
      or none. */
  predicate IsExtension(ext: string, cls: ExtClass) {
    ext == [] || (2 <= |ext| && ext[0] == '.' && '\n' !in ext && forall k :: 1 <= k < |ext| ==> InClass(ext[k], cls))
  }

  /** From the start of an extension, `(\.[^.]+)?$` takes all of it. */
  lemma ExtensionOfSuffix(s: string, q: nat, cls: ExtClass)
    requires q <= |s| && IsExtension(s[q..], cls)
    ensures ExtensionAt(s, q, cls) == Some(Tail(|s|, if q == |s| then None else Some(q)))
  {
    if q < |s| {
      assert s[q] == s[q..][0];
      forall k | q + 1 <= k < |s| ensures InClass(s[k], cls) {
        assert s[k] == s[q..][k - q];
      }
      var e := RunEnd(s, q + 1, c => InClass(c, cls));
      assert e == |s|;
      assert LastLineEnd(s, q + 2, e) == Some(|s|);
    }
  }

  /** Each dot before `n` is followed by a character the class refuses. */
  predicate DotsRefusedBefore(s: string, n: nat, cls: ExtClass)
    requires n <= |s|
  {
    forall k :: 0 <= k < n && s[k] == '.' ==> exists m :: k < m < |s| && !InClass(s[m], cls)
  }

  /** The dots of `pre` are refused later on when `pre`'s own last name
      closes them, or when the text after `pre` holds a refused character
      at `j`. */
  lemma DotsRefusedInText(pre: string, rest: string, j: nat, cls: ExtClass)
    requires DotsClosed(pre, cls) || (j < |rest| && !InClass(rest[j], cls))
    ensures DotsRefusedBefore(pre + rest, |pre|, cls)
  {
    var s := pre + rest;
    forall k | 0 <= k < |pre| && s[k] == '.'
      ensures exists m :: k < m < |s| && !InClass(s[m], cls)
    {
      assert pre[k] == s[k];
      if DotsClosed(pre, cls) {
        var m :| k < m < |pre| && !InClass(pre[m], cls);
        assert s[m] == pre[m];
      } else {
        assert s[|pre| + j] == rest[j];
      }
    }
  }

  /** A one-line text whose first `n` characters hold no `(`, do not end
      in white space, and have each dot followed by a character the class
      refuses. */
  predicate PlainPrefix(s: string, n: nat, cls: ExtClass)
    requires n <= |s|
  {
    && '\n' !in s
    && (forall k :: 0 <= k < n ==> s[k] != '(')
    && (0 < n ==> !IsSpace(s[n - 1]))
    && DotsRefusedBefore(s, n, cls)
  }

  /** No `\s*(?:\(\d+\))?(\.[^.]+)?$` match starts before `n` in a plain
      prefix. */
  lemma NoSubBefore(s: string, n: nat, cls: ExtClass)
    requires n <= |s| && PlainPrefix(s, n, cls)
    ensures forall j :: 0 <= j < n ==> SubAt(s, j, cls).None?
  {
    forall j | 0 <= j < n ensures SubAt(s, j, cls).None? {
      var p := RunEnd(s, j, IsSpace);
      assert p < n;
      forall q | j <= q <= p ensures AfterSpaces(s, q, cls).None? {
        NoTailAt(s, q, cls);
      }
      NoSpacesThen(s, j, p, cls);
    }
  }

  /** Neither alternative after the white space matches at a position
      holding no `(` that is followed by a character the class refuses. */
  lemma NoTailAt(s: string, q: nat, cls: ExtClass)
    requires q < |s| && '\n' !in s && s[q] != '('
    requires s[q] == '.' ==> exists m :: q < m < |s| && !InClass(s[m], cls)
    ensures AfterSpaces(s, q, cls).None?
  {
    assert forall i :: 0 <= i < |s| ==> s[i] != '\n';
    if s[q] == '.' {
      var m :| q < m < |s| && !InClass(s[m], cls);
      var e := RunEnd(s, q + 1, c => InClass(c, cls));
      assert e <= m;
      assert LastLineEnd(s, q + 2, e).None?;
    }
  }

  lemma {:induction false} NoSpacesThen(s: string, i: nat, p: nat, cls: ExtClass)
    requires i <= p <= |s|
    requires forall k :: i <= k < p ==> IsSpace(s[k])
    requires forall q :: i <= q <= p ==> AfterSpaces(s, q, cls).None?
    ensures SpacesThen(s, i, p, cls).None?
    decreases p - i
  {
    if i < p {
      NoSpacesThen(s, i, p - 1, cls);
    }
  }

  /** A name without a number and without a `(` anywhere, followed by an
      extension or by nothing, is given ` (1)` before the extension:
      `foo.txt` becomes `foo (1).txt`. Without an extension the last
      name must hold no dot the class could take for one. */
  lemma RenameFirst(pre: string, ext: string, cls: ExtClass)
    requires Stem(pre) && IsExtension(ext, cls) && '(' !in ext
    requires ext == [] ==> DotsClosed(pre, cls)
    ensures Candidate(pre + ext, cls) == pre + " (1)" + ext
  {
    var s := pre + ext;
    PlainText(pre, ext, cls);
    NoNumber(s, cls);
    var t := Tail(|s|, if ext == [] then None else Some(|pre|));
    PlainMatch(s, |pre|, cls);
    FirstRename(s, cls, |pre|, t);
    assert Captured(s, t) == ext;
  }

  /** What PlainMatch needs of `pre + ext`. */
  lemma PlainText(pre: string, ext: string, cls: ExtClass)
    requires Stem(pre) && IsExtension(ext, cls) && '(' !in ext
    requires ext == [] ==> DotsClosed(pre, cls)
    ensures var s := pre + ext;
      && s[..|pre|] == pre && s[|pre|..] == ext && s[|s|..] == []
      && '(' !in s && PlainPrefix(s, |pre|, cls)
  {
    var s := pre + ext;
    assert s[..|pre|] == pre && s[|pre|..] == ext;
    DotsRefusedInText(pre, ext, 0, cls);
  }

  /** In a text without `(` that ends in an extension or nothing from
      `n`, the leftmost `sub` match is that extension, or the empty match
      at the end. */
  lemma PlainMatch(s: string, n: nat, cls: ExtClass)
    requires n <= |s| && IsExtension(s[n..], cls) && PlainPrefix(s, n, cls)
    ensures FirstSub(s, 0, cls) == (n, Tail(|s|, if n == |s| then None else Some(n)))
  {
    NoSubBefore(s, n, cls);
    assert SubAt(s, n, cls) == Some(Tail(|s|, if n == |s| then None else Some(n))) by {
      ExtensionOfSuffix(s, n, cls);
      assert n < |s| ==> s[n] == s[n..][0];
      assert RunEnd(s, n, IsSpace) == n;
    }
    FirstSubAt(s, 0, n, cls);
  }

  /** ` (digits)` from `n` to `e`, followed by an extension or by
      nothing. */
  predicate NumberedAt(s: string, n: nat, e: nat, cls: ExtClass) {
    && n + 2 < e < |s| && s[n] == ' ' && s[n + 1] == '(' && s[e] == ')'
    && (forall i :: n + 2 <= i < e ==> IsDigit(s[i]))
    && IsExtension(s[e + 1..], cls)
  }

  /** Where the parts of `pre (digits)ext` sit. */
  lemma NumberedLayout(pre: string, digits: string, ext: string, cls: ExtClass)
    requires digits != [] && forall i :: 0 <= i < |digits| ==> IsDigit(digits[i])
    requires IsExtension(ext, cls)
    ensures var s := pre + " (" + digits + ")" + ext;
      var e := |pre| + 2 + |digits|;
      && NumberedAt(s, |pre|, e, cls)
      && s[..|pre|] == pre && s[|pre| + 2..e] == digits && s[e + 1..] == ext
      && (forall i :: 0 <= i < |pre| ==> s[i] == pre[i])
  {
    var s := pre + " (" + digits + ")" + ext;
    var e := |pre| + 2 + |digits|;
    assert s[e + 1..] == ext;
    forall i | |pre| + 2 <= i < e ensures IsDigit(s[i]) {
      assert s[i] == digits[i - |pre| - 2];
    }
  }

  /** `\(\d+\)(\.[^.]+)?$` from `n + 1`, where `(digits)` is followed by
      an extension or by nothing: both patterns take the number and the
      extension. */
  lemma ParenTail(s: string, n: nat, e: nat, cls: ExtClass)
    requires NumberedAt(s, n, e, cls)
    ensures ParenEnd(s, n + 1) == Some(e + 1)
    ensures NumberAt(s, n + 1, cls) == Some(s[n + 2..e])
    ensures AfterSpaces(s, n + 1, cls) == Some(Tail(|s|, if e + 1 == |s| then None else Some(e + 1)))
  {
    assert RunEnd(s, n + 2, IsDigit) == e;
    ExtensionOfSuffix(s, e + 1, cls);
  }

  /** A name ending in a number in parentheses, with or without an
      extension after it: the `match` reads that number. */
  lemma NumberAfterParen(pre: string, k: nat, ext: string, cls: ExtClass)
    requires '(' !in pre && IsExtension(ext, cls)
    ensures NextNumber(pre + " (" + NatToString(k) + ")" + ext, cls) == k + 1
  {
    var digits := NatToString(k);
    var s := pre + " (" + digits + ")" + ext;
    NumberedLayout(pre, digits, ext, cls);
    NumberOfParen(s, |pre|, |pre| + 2 + |digits|, cls);
    NatToStringValue(k);
  }

  /** The leftmost `match` in a text with no `(` before `n + 1` and
      `(digits)` there, followed by an extension or by nothing. */
  lemma NumberOfParen(s: string, n: nat, e: nat, cls: ExtClass)
    requires NumberedAt(s, n, e, cls) && forall i :: 0 <= i < n ==> s[i] != '('
    ensures FirstNumber(s, 0, cls) == Some(s[n + 2..e])
  {
    ParenTail(s, n, e, cls);
    NoParenBefore(s, 0, n + 1, cls);
  }

  /** No `match` starts where there is no `(`. */
  lemma {:induction false} NoParenBefore(s: string, i: nat, j: nat, cls: ExtClass)
    requires i <= j <= |s|
    requires forall k :: i <= k < j ==> s[k] != '('
    ensures FirstNumber(s, i, cls) == FirstNumber(s, j, cls)
    decreases j - i
  {
    if i < j {
      assert ParenEnd(s, i).None?;
      NoParenBefore(s, i + 1, j, cls);
    }
  }

  /** A name that has a number in parentheses gets the next one in its
      place: `foo (1).txt` becomes `foo (2).txt`. */
  lemma RenameNext(pre: string, k: nat, ext: string, cls: ExtClass)
    requires Stem(pre) && IsExtension(ext, cls)
    requires ext == [] ==> DotsClosed(pre, cls)
    ensures Candidate(pre + " (" + NatToString(k) + ")" + ext, cls)
            == pre + " (" + NatToString(k + 1) + ")" + ext
  {
    NumberAfterParen(pre, k, ext, cls);
    NumberedRename(pre, NatToString(k), ext, k + 1, cls);
  }

  /** The `sub` on `pre (digits)ext` puts ` (x)` in place of ` (digits)`. */
  lemma NumberedRename(pre: string, digits: string, ext: string, x: nat, cls: ExtClass)
    requires Stem(pre) && IsExtension(ext, cls)
    requires digits != [] && forall i :: 0 <= i < |digits| ==> IsDigit(digits[i])
    requires ext == [] ==> DotsClosed(pre, cls)
    ensures Rename(pre + " (" + digits + ")" + ext, x, cls) == pre + " (" + NatToString(x) + ")" + ext
  {
    var s := pre + " (" + digits + ")" + ext;
    NumberedLayout(pre, digits, ext, cls);
    NumberedStem(pre, digits, ext, cls);
    RenameNumbered(s, |pre|, |pre| + 2 + |digits|, x, cls);
    TagJoin(pre, x, ext);
  }

  lemma TagJoin(pre: string, x: nat, ext: string)
    ensures pre + NumberTag(x) + ext == pre + " (" + NatToString(x) + ")" + ext
  {
  }

  /** The leftmost `sub` match in a text whose first `n` characters hold
      no match, followed by ` (digits)` and an extension or nothing: all
      of that tail gives way to ` (x)` and the extension. */
  lemma RenameNumbered(s: string, n: nat, e: nat, x: nat, cls: ExtClass)
    requires NumberedAt(s, n, e, cls) && PlainPrefix(s, n, cls)
    ensures Rename(s, x, cls) == s[..n] + NumberTag(x) + s[e + 1..]
  {
    ParenTail(s, n, e, cls);
    var t := Tail(|s|, if e + 1 == |s| then None else Some(e + 1));
    assert SubAt(s, n, cls) == Some(t) by {
      assert RunEnd(s, n, IsSpace) == n + 1;
    }
    NoSubBefore(s, n, cls);
    FirstSubAt(s, 0, n, cls);
    assert Captured(s, t) == s[e + 1..];
  }

  /** What NoSubBefore needs of `pre (digits)ext`. */
  lemma NumberedStem(pre: string, digits: string, ext: string, cls: ExtClass)
    requires Stem(pre) && IsExtension(ext, cls) && forall i :: 0 <= i < |digits| ==> IsDigit(digits[i])
    requires ext == [] ==> DotsClosed(pre, cls)
    ensures PlainPrefix(pre + " (" + digits + ")" + ext, |pre|, cls)
  {
    var s := pre + " (" + digits + ")" + ext;
    var rest := " (" + digits + ")" + ext;
    assert s == pre + rest;
    assert forall i :: 0 <= i < |pre| ==> s[i] == pre[i];
    assert '\n' !in rest by {
      assert forall i :: 0 <= i < |digits| ==> rest[i + 2] == digits[i];
      assert forall i :: 0 <= i < |ext| ==> rest[|digits| + 3 + i] == ext[i];
    }
    if ext != [] {
      assert rest[|digits| + 3] == ext[0];
    }
    DotsRefusedInText(pre, rest, |digits| + 3, cls);
  }

  /** A taken name without a number gives way to its first candidate
      when that one is free: `foo.txt` is moved as `foo (1).txt`. */
  lemma UncollideFirstFree(pre: string, ext: string, existing: set<string>, cls: ExtClass)
    requires Stem(pre) && IsExtension(ext, cls) && '(' !in ext
    requires ext == [] ==> DotsClosed(pre, cls)
    requires pre + ext in existing && pre + " (1)" + ext !in existing
    ensures Uncollide(pre + ext, existing, {}, cls) == Ok(pre + " (1)" + ext)
  {
    RenameFirst(pre, ext, cls);
  }

  /** The extension regular expression as written crosses a `/`: a name
      without extension in a directory whose name has a dot gets ` (1)`
      in the directory part. */
  lemma SplicedIntoDirectory()
    ensures Candidate("/.T/x", NotDot) == "/ (1).T/x"
  {
    var s := "/.T/x";
    NoNumber(s, NotDot);
    SplicedMatch();
    FirstRename(s, NotDot, 1, Tail(5, Some(1)));
    assert Captured(s, Tail(5, Some(1))) == ".T/x";
    assert s[..1] == "/" && s[5..] == "";
    assert "/" + " (1)" + ".T/x" + "" == "/ (1).T/x";
  }

  /** So for a file `x` that collides in a trash can `/.T`, `trash` picks
      `/ (1).T/x`, a path outside the can; unless the directory `/ (1).T`
      exists, the forced move then fails silently and the file stays put.
      With the corrected class the name stays in the can as `/.T/x (1)`. */
  lemma TrashLeavesCan()
    ensures Uncollide("/.T/x", {"/.T/x"}, {}, NotDot) == Ok("/ (1).T/x")
    ensures Uncollide("/.T/x", {"/.T/x"}, {}, NotDotOrSlash) == Ok("/.T/x (1)")
  {
    SplicedIntoDirectory();
    CandidateStaysInDirectory();
    assert "/ (1).T/x" != "/.T/x" by {
      assert |"/ (1).T/x"| != |"/.T/x"|;
    }
    assert "/.T/x (1)" != "/.T/x" by {
      assert |"/.T/x (1)"| != |"/.T/x"|;
    }
  }

  /** As written, the leftmost match in `/.T/x` starts at the first dot
      and captures `.T/x`. */
  lemma SplicedMatch()
    ensures FirstSub("/.T/x", 0, NotDot) == (1, Tail(5, Some(1)))
  {
    var s := "/.T/x";
    assert SubAt(s, 0, NotDot).None? by {
      assert RunEnd(s, 0, IsSpace) == 0;
      assert ParenEnd(s, 0).None?;
    }
    assert SubAt(s, 1, NotDot) == Some(Tail(5, Some(1))) by {
      assert RunEnd(s, 1, IsSpace) == 1;
      assert ParenEnd(s, 1).None?;
      assert RunEnd(s, 2, c => InClass(c, NotDot)) == 5 by {
        assert s[2] != '.' && s[3] != '.' && s[4] != '.';
      }
      assert LastLineEnd(s, 3, 5) == Some(5);
    }
    FirstSubAt(s, 0, 1, NotDot);
  }

  /** A name without a number is given ` (1)` in place of its match. */
  lemma FirstRename(s: string, cls: ExtClass, i: nat, t: Tail)
    requires NextNumber(s, cls) == 1 && FirstSub(s, 0, cls) == (i, t)
    ensures Rename(s, NextNumber(s, cls), cls) == s[..i] + " (1)" + Captured(s, t) + s[t.end..]
  {
    assert NumberTag(1) == " (1)";
  }

  /** With the corrected class the same name gets ` (1)` at its end. */
  lemma CandidateStaysInDirectory()
    ensures Candidate("/.T/x", NotDotOrSlash) == "/.T/x (1)"
  {
    var s := "/.T/x";
    NoNumber(s, NotDotOrSlash);
    StaysMatch();
    FirstRename(s, NotDotOrSlash, 5, Tail(5, None));
    assert s[..5] == s;
    assert s + " (1)" == "/.T/x (1)";
  }

  /** With the corrected class the only match in `/.T/x` is the empty one
      at the end. */
  lemma StaysMatch()
    ensures FirstSub("/.T/x", 0, NotDotOrSlash) == (5, Tail(5, None))
  {
    var s := "/.T/x";
    assert forall j :: 0 <= j < 4 ==> SubAt(s, j, NotDotOrSlash).None? by {
      forall j | 0 <= j < 4
        ensures SubAt(s, j, NotDotOrSlash).None?
      {
        assert s[j..][3 - j] == '/';
        NoSlashFreeMatch(s, j);
      }
    }
    assert SubAt(s, 4, NotDotOrSlash).None? by {
      assert RunEnd(s, 4, IsSpace) == 4;
    }
    assert SubAt(s, 5, NotDotOrSlash) == Some(Tail(5, None)) by {
      assert RunEnd(s, 5, IsSpace) == 5;
    }
    FirstSubAt(s, 0, 5, NotDotOrSlash);
  }
  /** Without a `(` there is no number to take over. */
  lemma NoNumber(s: string, cls: ExtClass)
    requires '(' !in s
    ensures NextNumber(s, cls) == 1
  {
    NoNumberFrom(s, 0, cls);
  }

  lemma {:induction false} NoNumberFrom(s: string, i: nat, cls: ExtClass)
    requires '(' !in s && i <= |s|
    ensures FirstNumber(s, i, cls).None?
    decreases |s| - i
  {
    if i < |s| {
      NoNumberFrom(s, i + 1, cls);
    }
  }

  /** With the corrected class a match runs to the end of a one-line
      text without crossing a `/`; so none starts before the last `/`. */
  lemma NoSlashFreeMatch(s: string, j: nat)
    requires j < |s| && '\n' !in s && '/' in s[j..]
    ensures SubAt(s, j, NotDotOrSlash).None?
  {
  }

  /** The leftmost match is the first position where the pattern matches. */
  lemma {:induction false} FirstSubAt(s: string, i: nat, j: nat, cls: ExtClass)
    requires i <= j <= |s|
    requires forall k :: i <= k < j ==> SubAt(s, k, cls).None?
    requires SubAt(s, j, cls).Some?
    ensures FirstSub(s, i, cls) == (j, SubAt(s, j, cls).value)
    decreases j - i
  {
    if i < j {
      FirstSubAt(s, i + 1, j, cls);
    }
  }

  /** With the corrected class the new name stays in the same directory:
      the text before the match is kept, and neither the rest of the old
      name nor what replaces it holds a `/`. */
  lemma CandidateKeepsDirectory(s: string)
    requires '\n' !in s
    ensures var i := FirstSub(s, 0, NotDotOrSlash).0;
      var r := Candidate(s, NotDotOrSlash);
      i <= |r| && r[..i] == s[..i] && '/' !in s[i..] && '/' !in r[i..]
  {
    var m := FirstSub(s, 0, NotDotOrSlash);
    var tag := NumberTag(NextNumber(s, NotDotOrSlash));
    var ext := Captured(s, m.1);
    MatchAfterDirectory(s);
    assert s[m.1.end..] == [];
    assert Candidate(s, NotDotOrSlash) == s[..m.0] + tag + ext + [];
    assert '/' !in s[m.0..] by {
      assert forall k :: 0 <= k < |s| - m.0 ==> s[m.0..][k] == s[m.0 + k];
    }
    NoSlashAfter(s[..m.0], tag, ext);
  }

  /** ` (n)`, the text put in place of the match. */
  function NumberTag(n: nat): (tag: string)
    ensures '/' !in tag
  {
    var digits := NatToString(n);
    assert forall k :: 0 <= k < |digits| ==> IsDigit(digits[k]);
    " (" + digits + ")"
  }

  /** A text followed by two parts without `/` keeps that text as its
      prefix, and has no `/` past it. */
  lemma NoSlashAfter(a: string, b: string, c: string)
    requires '/' !in b && '/' !in c
    ensures var r := a + b + c + [];
      |a| <= |r| && r[..|a|] == a && '/' !in r[|a|..]
  {
    var r := a + b + c + [];
    assert r[|a|..] == b + c;
  }

  /** With the corrected class, on a one-line text, the leftmost match
      runs to the end without a `/`, and so does its capture. */
  lemma MatchAfterDirectory(s: string)
    requires '\n' !in s
    ensures var m := FirstSub(s, 0, NotDotOrSlash);
      && m.1.end == |s| && (forall k :: m.0 <= k < |s| ==> s[k] != '/')
      && '/' !in Captured(s, m.1)
  {
    var m := FirstSub(s, 0, NotDotOrSlash);
    assert SubAt(s, m.0, NotDotOrSlash) == Some(m.1);
    OnlyEndIsLineEnd(s, m.1.end);
    CapturedFree(s, m.1, m.0);
  }

  /** In a one-line text `$` matches only at the end. */
  lemma OnlyEndIsLineEnd(s: string, p: nat)
    requires '\n' !in s && p <= |s| && LineEnd(s, p)
    ensures p == |s|
  {
    assert forall i :: 0 <= i < |s| ==> s[i] != '\n';
  }

  /** A capture inside a stretch without `/` has none. */
  lemma CapturedFree(s: string, t: Tail, lo: nat)
    requires t.end <= |s| && (t.extension.Some? ==> lo <= t.extension.value <= t.end)
    requires forall k :: lo <= k < t.end ==> s[k] != '/'
    ensures '/' !in Captured(s, t)
  {
    if t.extension.Some? {
      var c := s[t.extension.value..t.end];
      assert forall k :: 0 <= k < |c| ==> c[k] == s[t.extension.value + k];
    }
  }
}
