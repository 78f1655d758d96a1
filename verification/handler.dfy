/** `Handler`: for each set of identical files, choose the copies to keep
    (automatically by `--auto-keep`, or from an answer typed at the
    prompt), then keep them all or hand every other copy to the trasher.
    Terminal output is not modelled; the prompt's input lines are a
    parameter. */
module Handling {
  import opened Wrappers
  import opened Text
  import opened Ordering
  import opened Trashing

  /** `AUTO_KEEP = %i(oldest newest first last)`, and `Ask` for no
      automatic choice. */
  datatype AutoKeepMode = Oldest | Newest | First | Last | Ask

  /** A set of identical files as the handler reads it. `oldest` and
      `newest` are the files it labels as such. */
  datatype DuplicateSet = DuplicateSet(files: seq<string>, oldest: string, newest: string)
  {
    /** `count`: the number of files in the set. */
    function Count(): nat { |files| }
  }

  /** The options the handler consults. */
  datatype HandlerOptions = HandlerOptions(autoKeep: AutoKeepMode, dryRun: bool, trash: bool)

  /** Every index of the keep list names a file of a set of `count`. */
  predicate InRange(keep: seq<int>, count: nat) {
    forall i :: 0 <= i < |keep| ==> 0 <= keep[i] < count
  }

  /** The labelled file a mode keeps: required to be one of the set's files. */
  predicate Labelled(dup: DuplicateSet, mode: AutoKeepMode) {
    && (mode == Oldest ==> dup.oldest in dup.files)
    && (mode == Newest ==> dup.newest in dup.files)
  }

  /** `auto_keep(set)`: the single index to keep, or none when the choice
      is left to the prompt. */
  function AutoKeep(dup: DuplicateSet, mode: AutoKeepMode): (r: Option<seq<int>>)
    requires Labelled(dup, mode)
    ensures r.None? <==> mode == Ask
    ensures r.Some? ==> |r.value| == 1
    ensures mode == Oldest ==>
      && 0 <= r.value[0] < dup.Count() && dup.files[r.value[0]] == dup.oldest
      && dup.oldest !in dup.files[..r.value[0]]
    ensures mode == Newest ==>
      && 0 <= r.value[0] < dup.Count() && dup.files[r.value[0]] == dup.newest
      && dup.newest !in dup.files[..r.value[0]]
    ensures mode == First ==> r == Some([0])
    ensures mode == Last ==> r == Some([dup.Count() - 1])
  {
    match mode
    case Oldest => Some([Position(dup.files, dup.oldest).value])
    case Newest => Some([Position(dup.files, dup.newest).value])
    case First => Some([0])
    case Last => Some([dup.Count() - 1])
    case Ask => None
  }

  /** An automatic choice keeps exactly one file of a non-empty set. */
  lemma AutoKeepKeepsOne(dup: DuplicateSet, mode: AutoKeepMode)
    requires Labelled(dup, mode) && mode != Ask && dup.Count() > 0
    ensures InRange(AutoKeep(dup, mode).value, dup.Count())
    ensures |Doomed(dup.Count(), AutoKeep(dup, mode).value)| == dup.Count() - 1
  {
    var keep := AutoKeep(dup, mode).value;
    DoomedCount(dup.Count(), keep);
    UniqCount(keep, dup.Count());
    assert Uniq(keep) == keep by {
      UniqOfDistinct(keep);
    }
  }

  /** The answer to the prompt once read: the tokens not understood and
      the 0-based indices to keep. */
  datatype Answer = Answer(ignored: seq<string>, keepers: seq<int>)

  /** `gets.strip.split.uniq`: the distinct words of the line. */
  function Tokens(line: string): seq<string> {
    Uniq(Words(Strip(line)))
  }

  /** `(1..count).include?(x.to_i)`. */
  predicate Understood(t: string, count: nat) {
    1 <= ToI(t) <= count
  }

  /** The tokens whose number is not the number of a file, in order. */
  function Rejected(tokens: seq<string>, count: nat): (r: seq<string>)
    ensures forall t :: t in r <==> t in tokens && !Understood(t, count)
  {
    if tokens == [] then []
    else
      var rest := Rejected(tokens[1..], count);
      if Understood(tokens[0], count) then rest else [tokens[0]] + rest
  }

  /** `collect { |x| x.to_i - 1 }`. */
  function Indices(tokens: seq<string>): (r: seq<int>)
    ensures |r| == |tokens|
    ensures forall i :: 0 <= i < |r| ==> r[i] == ToI(tokens[i]) - 1
  {
    if tokens == [] then [] else [ToI(tokens[0]) - 1] + Indices(tokens[1..])
  }

  /** `(0...count).to_a`. */
  function AllIndices(count: nat): (r: seq<int>)
    ensures |r| == count
    ensures forall i :: 0 <= i < count ==> r[i] == i
  {
    if count == 0 then [] else AllIndices(count - 1) + [count - 1]
  }

  /** `collect.sort.uniq`, then every index when that leaves nothing. */
  function Keepers(tokens: seq<string>, count: nat): seq<int> {
    IntLessIsStrictTotalOrder();
    var keepers := Uniq(Sort(Indices(tokens), IntLess));
    if keepers == [] then AllIndices(count) else keepers
  }

  /** One pass of the prompt's loop on a line: the rejected tokens and the
      keepers. */
  function ParseAnswer(line: string, count: nat): Answer {
    var tokens := Tokens(line);
    Answer(Rejected(tokens, count), Keepers(tokens, count))
  }

  /** The keepers are ascending without repeats. */
  lemma KeepersSorted(tokens: seq<string>, count: nat)
    ensures StrictlySorted(Keepers(tokens, count), IntLess)
  {
    IntLessIsStrictTotalOrder();
    UniqOfSorted(Sort(Indices(tokens), IntLess), IntLess);
  }

  /** The keepers are exactly the numbers typed, less one, or every index
      for an empty answer. */
  lemma KeepersMembers(tokens: seq<string>, count: nat)
    ensures tokens != [] ==> forall k :: k in Keepers(tokens, count) <==> k in Indices(tokens)
    ensures tokens == [] ==> Keepers(tokens, count) == AllIndices(count)
  {
    IntLessIsStrictTotalOrder();
    var indices := Indices(tokens);
    var sorted := Sort(indices, IntLess);
    SortedMembers(indices, sorted);
    if tokens != [] {
      assert indices[0] in Uniq(sorted);
    } else {
      assert Uniq(sorted) == [];
    }
  }

  /** De-duplicating a permutation keeps exactly the original's elements. */
  lemma SortedMembers(indices: seq<int>, sorted: seq<int>)
    requires multiset(sorted) == multiset(indices)
    ensures forall k :: k in Uniq(sorted) <==> k in indices
  {
    forall k ensures k in Uniq(sorted) <==> k in indices {
      var u := Uniq(sorted);
      if k in u {
        var i :| 0 <= i < |u| && u[i] == k;
        assert k in multiset(sorted);
      }
      if k in indices {
        assert k in multiset(sorted);
        var i :| 0 <= i < |sorted| && sorted[i] == k;
      }
    }
  }

  /** When every token is understood the keepers name files of the set,
      and there is at least one of them unless the set is empty. */
  lemma KeepersInRange(tokens: seq<string>, count: nat)
    requires Rejected(tokens, count) == []
    ensures InRange(Keepers(tokens, count), count)
    ensures count > 0 ==> Keepers(tokens, count) != []
  {
    KeepersMembers(tokens, count);
    if tokens != [] {
      IndicesInRange(tokens, count);
      assert Indices(tokens)[0] in Keepers(tokens, count);
    }
  }

  /** The numbers of understood tokens, less one, are indices of the set. */
  lemma IndicesInRange(tokens: seq<string>, count: nat)
    requires Rejected(tokens, count) == []
    ensures forall k :: k in Indices(tokens) ==> 0 <= k < count
  {
    forall k | k in Indices(tokens) ensures 0 <= k < count {
      var j :| 0 <= j < |tokens| && Indices(tokens)[j] == k;
      assert Understood(tokens[j], count);
    }
  }

  /** A line whose answer is understood in full. */
  predicate Clear(line: string, count: nat) {
    Rejected(Tokens(line), count) == []
  }

  /** The position of the first `true`. */
  function FirstTrue(bs: seq<bool>): (r: Option<nat>)
    ensures r.Some? ==> r.value < |bs| && bs[r.value]
    ensures r.Some? ==> forall j :: 0 <= j < r.value ==> !bs[j]
    ensures r.None? ==> forall j :: 0 <= j < |bs| ==> !bs[j]
  {
    if bs == [] then None
    else if bs[0] then Some(0)
    else match FirstTrue(bs[1..])
      case None => None
      case Some(k) => Some(k + 1)
  }

  /** The first line whose answer is understood in full. */
  function FirstUnderstood(lines: seq<string>, count: nat): (r: Option<nat>)
    ensures r.Some? ==> r.value < |lines| && Clear(lines[r.value], count)
    ensures r.Some? ==> forall j :: 0 <= j < r.value ==> !Clear(lines[j], count)
    ensures r.None? ==> forall j :: 0 <= j < |lines| ==> !Clear(lines[j], count)
  {
    var clear := seq(|lines|, j requires 0 <= j < |lines| => Clear(lines[j], count));
    assert forall j :: 0 <= j < |lines| ==> clear[j] == Clear(lines[j], count);
    FirstTrue(clear)
  }

  /** The keep list the handler settles on: the automatic choice, else the
      keepers of the first answer understood in full; the input running
      out is a NoMethodError (`nil` has no `strip`). */
  function ChosenKeep(dup: DuplicateSet, mode: AutoKeepMode, lines: seq<string>): (r: Result<seq<int>>)
    requires Labelled(dup, mode)
    ensures r.Ok? && dup.Count() > 0 ==> r.value != [] && InRange(r.value, dup.Count())
    ensures r.Err? ==> r.error == NoMethodError && mode == Ask
  {
    match AutoKeep(dup, mode)
    case Some(keep) => Ok(keep)
    case None =>
      match FirstUnderstood(lines, dup.Count())
      case None => Err(NoMethodError)
      case Some(i) =>
        KeepersInRange(Tokens(lines[i]), dup.Count());
        Ok(ParseAnswer(lines[i], dup.Count()).keepers)
  }

  /** `prompt(set)`: reads lines until one is understood in full and
      answers its keepers; `used` is the number of lines read. */
  method Prompt(count: nat, lines: seq<string>) returns (r: Result<seq<int>>, used: nat)
    ensures FirstUnderstood(lines, count).None? ==> r == Err(NoMethodError) && used == |lines|
    ensures FirstUnderstood(lines, count).Some? ==>
      && used == FirstUnderstood(lines, count).value + 1
      && r == Ok(ParseAnswer(lines[used - 1], count).keepers)
    ensures r.Ok? ==> StrictlySorted(r.value, IntLess) && InRange(r.value, count)
  {
    var ignored: seq<string> := ["0"];
    var keepers: seq<int> := [];
    used := 0;
    while ignored != []
      invariant used <= |lines|
      invariant used == 0 ==> ignored != []
      invariant forall j :: 0 <= j < used - 1 ==> !Clear(lines[j], count)
      invariant ignored != [] ==> forall j :: 0 <= j < used ==> !Clear(lines[j], count)
      invariant used > 0 ==> ignored == Rejected(Tokens(lines[used - 1]), count)
      invariant used > 0 ==> keepers == Keepers(Tokens(lines[used - 1]), count)
      decreases |lines| - used
    {
      if used == |lines| {
        return Err(NoMethodError), used;
      }
      var tokens := Tokens(lines[used]);
      ignored := Rejected(tokens, count);
      IntLessIsStrictTotalOrder();
      keepers := Uniq(Sort(Indices(tokens), IntLess));
      if keepers == [] {
        keepers := AllIndices(count);
      }
      used := used + 1;
    }
    KeepersSorted(Tokens(lines[used - 1]), count);
    KeepersInRange(Tokens(lines[used - 1]), count);
    return Ok(keepers), used;
  }

  /** The indices `remove_copies` takes away from a set of `count`: those
      not in the keep list, in ascending order. */
  function Doomed(count: nat, keep: seq<int>): (r: seq<int>)
    ensures forall k :: 0 <= k < |r| ==> 0 <= r[k] < count
    ensures forall i :: i in r <==> 0 <= i < count && i !in keep
    ensures forall i, j :: 0 <= i < j < |r| ==> r[i] < r[j]
  {
    if count == 0 then []
    else
      var rest := Doomed(count - 1, keep);
      if count - 1 in keep then rest else rest + [count - 1]
  }

  /** The kept indices of a set of `count`. */
  ghost function KeptBelow(count: nat, keep: seq<int>): set<int> {
    set x | x in keep && 0 <= x < count
  }

  /** Counting one more index adds it to the kept ones exactly when the
      keep list names it. */
  lemma KeptBelowStep(n: nat, keep: seq<int>)
    ensures n in keep ==> KeptBelow(n + 1, keep) == KeptBelow(n, keep) + {n}
    ensures n !in keep ==> KeptBelow(n + 1, keep) == KeptBelow(n, keep)
  {
  }

  /** The doomed and the kept indices share out the set. */
  lemma {:induction false} DoomedCount(count: nat, keep: seq<int>)
    ensures |Doomed(count, keep)| + |KeptBelow(count, keep)| == count
  {
    if count > 0 {
      var n := count - 1;
      DoomedCount(n, keep);
      KeptBelowStep(n, keep);
      if n in keep {
        assert n !in KeptBelow(n, keep);
        assert |Doomed(count, keep)| == |Doomed(n, keep)|;
      } else {
        assert |Doomed(count, keep)| == |Doomed(n, keep)| + 1;
      }
    }
  }

  /** An in-range keep list keeps as many indices as it has distinct
      entries. */
  lemma UniqCount(keep: seq<int>, count: nat)
    requires InRange(keep, count)
    ensures |Uniq(keep)| == |KeptBelow(count, keep)|
  {
    DistinctCardinality(Uniq(keep));
    assert (set x | x in Uniq(keep)) == KeptBelow(count, keep);
  }

  /** The decision of `start`: with an in-range keep list, keeping as many
      distinct indices as there are files is the same as removing none. */
  lemma KeepAllIffNoneDoomed(count: nat, keep: seq<int>)
    requires InRange(keep, count)
    ensures |Uniq(keep)| == count <==> Doomed(count, keep) == []
  {
    DoomedCount(count, keep);
    UniqCount(keep, count);
  }

  /** The refusal of `remove_copies`: a non-empty in-range keep list leaves
      at least one copy. */
  lemma SomeCopySurvives(count: nat, keep: seq<int>)
    requires InRange(keep, count) && keep != []
    ensures |Doomed(count, keep)| < count
  {
    DoomedCount(count, keep);
    assert keep[0] in KeptBelow(count, keep);
  }

  /** The files at the doomed indices among the first `n`. */
  function DoomedFiles(files: seq<string>, n: nat, keep: seq<int>): (r: seq<string>)
    requires n <= |files|
    ensures |r| == |Doomed(n, keep)|
  {
    if n == 0 then []
    else
      var rest := DoomedFiles(files, n - 1, keep);
      if n - 1 in keep then rest else rest + [files[n - 1]]
  }

  /** The doomed files are the files at the doomed indices, in order. */
  lemma {:induction false} DoomedFilesAt(files: seq<string>, n: nat, keep: seq<int>)
    requires n <= |files|
    ensures forall k :: 0 <= k < |Doomed(n, keep)| ==> DoomedFiles(files, n, keep)[k] == files[Doomed(n, keep)[k]]
  {
    if n > 0 {
      DoomedFilesAt(files, n - 1, keep);
    }
  }

  /** The files the actions take away, in order. */
  function Subjects(actions: seq<Action>): (r: seq<string>)
    ensures |r| == |actions|
    ensures forall k :: 0 <= k < |r| ==> r[k] == actions[k].Subject()
  {
    if actions == [] then [] else Subjects(actions[..|actions| - 1]) + [actions[|actions| - 1].Subject()]
  }

  /** The paths that exist once the actions are done in order. */
  function Replay(actions: seq<Action>, existing: set<string>): set<string> {
    if actions == [] then existing
    else Apply(actions[|actions| - 1], Replay(actions[..|actions| - 1], existing))
  }

  /** No move lands on a path that exists when it is made. */
  ghost predicate NoOverwrite(actions: seq<Action>, existing: set<string>) {
    forall k :: 0 <= k < |actions| && actions[k].Move? ==> actions[k].to !in Replay(actions[..k], existing)
  }

  /** An action whose move lands on a free path keeps `NoOverwrite`. */
  lemma NoOverwriteAppend(actions: seq<Action>, a: Action, existing: set<string>)
    requires NoOverwrite(actions, existing)
    requires a.Move? ==> a.to !in Replay(actions, existing)
    ensures NoOverwrite(actions + [a], existing)
    ensures Replay(actions + [a], existing) == Apply(a, Replay(actions, existing))
  {
    var s := actions + [a];
    assert s[..|actions|] == actions;
    forall k | 0 <= k < |actions| ensures s[..k] == actions[..k] {
    }
  }

  /** Every action of a sequence is a deletion (remove mode) or a move
      (trash mode). */
  predicate AllOfMode(actions: seq<Action>, mode: Mode) {
    forall k :: 0 <= k < |actions| ==> actions[k].Move? == (mode == TrashMode)
  }

  /** A handler: its options and the trasher built for them. */
  class Handler {
    const options: HandlerOptions
    const trasher: Trasher

    /** The trasher is in trash mode exactly when the options ask for the
        trash, and then it knows the trash can. */
    predicate Valid() {
      && trasher.mode == (if options.trash then TrashMode else RemoveMode)
      && (trasher.mode == TrashMode ==> trasher.trashPath.Some?)
    }

    constructor (options: HandlerOptions, trasher: Trasher)
      requires trasher.mode == (if options.trash then TrashMode else RemoveMode)
      requires trasher.mode == TrashMode ==> trasher.trashPath.Some?
      ensures Valid()
      ensures this.options == options && this.trasher == trasher
    {
      this.options := options;
      this.trasher := trasher;
    }

    /** `remove_copies(set, keep)`: refuses an empty keep list, then hands
        every file whose index is not kept to the trasher, in order, or
        only names them in a dry run. Moves never land on a path that
        exists. */
    method RemoveCopies(dup: DuplicateSet, keep: seq<int>, existing: set<string>) returns (r: Result<seq<Action>>)
      requires Valid()
      ensures keep == [] <==> r == Err(ScriptError)
      ensures r.Err? && keep != [] ==> r.error == StackError && options.trash && !options.dryRun
      ensures r.Ok? ==> Subjects(r.value) == (if options.dryRun then [] else DoomedFiles(dup.files, dup.Count(), keep))
      ensures r.Ok? ==> AllOfMode(r.value, trasher.mode) && NoOverwrite(r.value, existing)
    {
      if |keep| <= 0 {
        return Err(ScriptError);
      }
      var actions: seq<Action> := [];
      var now := existing;
      for index := 0 to dup.Count()
        invariant RemovedUpTo(dup, keep, existing, index, actions, now)
      {
        var failure;
        failure, actions, now := RemoveAt(dup, keep, existing, index, actions, now);
        if failure.Some? {
          return Err(failure.value);
        }
      }
      return Ok(actions);
    }

    /** The state of `remove_copies` after the first `index` files: the
        actions so far, and the paths that exist once they are done. */
    ghost predicate RemovedUpTo(dup: DuplicateSet, keep: seq<int>, existing: set<string>,
                                index: nat, actions: seq<Action>, now: set<string>)
      requires index <= dup.Count()
    {
      && Subjects(actions) == (if options.dryRun then [] else DoomedFiles(dup.files, index, keep))
      && AllOfMode(actions, trasher.mode)
      && NoOverwrite(actions, existing)
      && now == Replay(actions, existing)
    }

    /** One pass of the loop of `remove_copies`: a kept file is skipped, any
        other is named and, unless in a dry run, trashed. */
    method RemoveAt(dup: DuplicateSet, keep: seq<int>, existing: set<string>,
                    index: nat, actions: seq<Action>, now: set<string>)
      returns (failure: Option<Error>, actions': seq<Action>, now': set<string>)
      requires Valid() && index < dup.Count()
      requires RemovedUpTo(dup, keep, existing, index, actions, now)
      ensures failure.None? ==> RemovedUpTo(dup, keep, existing, index + 1, actions', now')
      ensures failure.Some? ==> failure.value == StackError && options.trash && !options.dryRun
    {
      actions', now' := actions, now;
      if index in keep || options.dryRun {
        return None, actions', now';
      }
      var step := trasher.Trash(dup.files[index], now);
      if step.Err? {
        return Some(step.error), actions', now';
      }
      NoOverwriteAppend(actions, step.value, existing);
      actions' := actions + [step.value];
      now' := Apply(step.value, now);
      assert AllOfMode(actions', trasher.mode) by {
        assert actions'[|actions|] == step.value;
      }
      return None, actions', now';
    }

    /** One pass of `start` over a set: choose the keep list, then keep
        every copy when it names as many distinct files as the set holds,
        else remove the others. Some copy always survives. */
    method HandleSet(dup: DuplicateSet, lines: seq<string>, existing: set<string>)
      returns (r: Result<seq<Action>>, used: nat)
      requires Valid() && Labelled(dup, options.autoKeep)
      ensures ChosenKeep(dup, options.autoKeep, lines).Err? ==> r == Err(NoMethodError)
      ensures r.Ok? ==>
        && ChosenKeep(dup, options.autoKeep, lines).Ok?
        && Subjects(r.value) == (if options.dryRun then []
                                 else DoomedFiles(dup.files, dup.Count(), ChosenKeep(dup, options.autoKeep, lines).value))
      ensures r.Ok? && dup.Count() > 0 ==> |r.value| < dup.Count()
      ensures r.Ok? ==> AllOfMode(r.value, trasher.mode) && NoOverwrite(r.value, existing)
      ensures r.Err? ==> r.error == NoMethodError || (r.error == StackError && options.trash)
      ensures used <= |lines|
    {
      var keep: seq<int>;
      var auto := AutoKeep(dup, options.autoKeep);
      if auto.Some? {
        keep := auto.value;
        used := 0;
      } else {
        var answer;
        answer, used := Prompt(dup.Count(), lines);
        if answer.Err? {
          return Err(answer.error), used;
        }
        keep := answer.value;
      }
      assert keep == ChosenKeep(dup, options.autoKeep, lines).value;
      if dup.Count() > 0 {
        SomeCopySurvives(dup.Count(), keep);
      }
      if |Uniq(keep)| != dup.Count() {
        r := RemoveCopies(dup, keep, existing);
      } else {
        if dup.Count() > 0 {
          KeepAllIffNoneDoomed(dup.Count(), keep);
        }
        r := Ok([]);
      }
    }
  }

  /** `Handler.new`: builds the trasher the options ask for; trash mode
      without a trash can is a ScriptError. */
  method NewHandler(options: HandlerOptions, trashCan: Option<string>) returns (r: Result<Handler>)
    ensures options.trash && trashCan.None? <==> r == Err(ScriptError)
    ensures r.Err? ==> r == Err(ScriptError)
    ensures r.Ok? ==> fresh(r.value) && r.value.Valid() && r.value.options == options
    ensures r.Ok? && options.trash ==> r.value.trasher.trashPath == trashCan
  {
    var trasher := NewTrasher(if options.trash then "trash" else "remove", trashCan);
    if trasher.Err? {
      return Err(trasher.error);
    }
    var h := new Handler(options, trasher.value);
    return Ok(h);
  }
}
