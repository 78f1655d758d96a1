/** Ordering, sorting and de-duplication as Ruby's Array#sort and
    Array#uniq perform them, and String#<=> as the order on paths. */
module Ordering {
  import opened Wrappers

  /** A strict total order: what `<=>` provides for Strings and Integers. */
  ghost predicate StrictTotalOrder<T(!new)>(lt: (T, T) -> bool) {
    && (forall x :: !lt(x, x))
    && (forall x, y, z :: lt(x, y) && lt(y, z) ==> lt(x, z))
    && (forall x, y :: x != y ==> lt(x, y) || lt(y, x))
  }

  /** Ascending, repeats allowed. */
  ghost predicate Sorted<T>(s: seq<T>, lt: (T, T) -> bool) {
    forall i, j :: 0 <= i < j < |s| ==> !lt(s[j], s[i])
  }

  /** Ascending without repeats. */
  ghost predicate StrictlySorted<T>(s: seq<T>, lt: (T, T) -> bool) {
    forall i, j :: 0 <= i < j < |s| ==> lt(s[i], s[j])
  }

  predicate Distinct<T(==)>(s: seq<T>) {
    forall i, j :: 0 <= i < j < |s| ==> s[i] != s[j]
  }

  /** String#<=> on the model's strings: character by character, a proper
      prefix first. Characters stand for bytes of UTF-8, whose byte order
      agrees with the order of the characters. */
  predicate Less(a: string, b: string) {
    if a == [] then b != []
    else if b == [] then false
    else if a[0] != b[0] then a[0] < b[0]
    else Less(a[1..], b[1..])
  }

  lemma {:induction false} LessIrreflexive(a: string)
    ensures !Less(a, a)
  {
    if a != [] {
      LessIrreflexive(a[1..]);
    }
  }

  lemma {:induction false} LessTransitive(a: string, b: string, c: string)
    requires Less(a, b) && Less(b, c)
    ensures Less(a, c)
  {
    if a != [] && b != [] && c != [] && a[0] == b[0] == c[0] {
      LessTransitive(a[1..], b[1..], c[1..]);
    }
  }

  lemma {:induction false} LessTotal(a: string, b: string)
    requires a != b
    ensures Less(a, b) || Less(b, a)
  {
    if a != [] && b != [] && a[0] == b[0] {
      assert a == [a[0]] + a[1..] && b == [b[0]] + b[1..];
      LessTotal(a[1..], b[1..]);
    }
  }

  /** String comparison is a strict total order, so sorting paths is
      well defined. */
  lemma LessIsStrictTotalOrder()
    ensures StrictTotalOrder(Less)
  {
    forall x: string ensures !Less(x, x) {
      LessIrreflexive(x);
    }
    forall x: string, y: string, z: string | Less(x, y) && Less(y, z) ensures Less(x, z) {
      LessTransitive(x, y, z);
    }
    forall x: string, y: string | x != y ensures Less(x, y) || Less(y, x) {
      LessTotal(x, y);
    }
  }

  /** Integer#<=> as an order. */
  predicate IntLess(a: int, b: int) { a < b }

  /** Integer comparison is a strict total order. */
  lemma IntLessIsStrictTotalOrder()
    ensures StrictTotalOrder(IntLess)
  {
  }

  /** Inserts `x` into a sorted sequence before the first element it does
      not follow. */
  function Insert<T>(x: T, s: seq<T>, lt: (T, T) -> bool): (r: seq<T>)
    ensures multiset(r) == multiset(s) + multiset{x}
    ensures |r| == |s| + 1
  {
    if s == [] then [x]
    else if lt(s[0], x) then
      assert s == [s[0]] + s[1..];
      [s[0]] + Insert(x, s[1..], lt)
    else [x] + s
  }

  /** Every element of an insertion is the inserted one or an old one. */
  lemma {:induction false} InsertElements<T>(x: T, s: seq<T>, lt: (T, T) -> bool)
    ensures forall k :: 0 <= k < |Insert(x, s, lt)| ==> Insert(x, s, lt)[k] == x || Insert(x, s, lt)[k] in s
  {
    if s != [] && lt(s[0], x) {
      InsertElements(x, s[1..], lt);
    }
  }

  /** "Not below" is transitive under a strict total order. */
  lemma NotLessTransitive<T(!new)>(a: T, b: T, c: T, lt: (T, T) -> bool)
    requires StrictTotalOrder(lt)
    requires !lt(a, b) && !lt(b, c)
    ensures !lt(a, c)
  {
    if a != b && b != c {
      assert lt(b, a) && lt(c, b);
    }
  }

  lemma {:induction false} InsertSorted<T(!new)>(x: T, s: seq<T>, lt: (T, T) -> bool)
    requires StrictTotalOrder(lt) && Sorted(s, lt)
    ensures Sorted(Insert(x, s, lt), lt)
  {
    if s == [] {
      return;
    }
    var r := Insert(x, s, lt);
    if lt(s[0], x) {
      var t := Insert(x, s[1..], lt);
      InsertSorted(x, s[1..], lt);
      InsertElements(x, s[1..], lt);
      assert r == [s[0]] + t;
      forall i, j | 0 <= i < j < |r| ensures !lt(r[j], r[i]) {
        if i == 0 {
          if t[j - 1] == x {
            assert !lt(x, s[0]);
          } else {
            var k :| 1 <= k < |s| && s[k] == t[j - 1];
            assert !lt(s[k], s[0]);
          }
        } else {
          assert r[j] == t[j - 1] && r[i] == t[i - 1];
        }
      }
    } else {
      assert r == [x] + s;
      forall i, j | 0 <= i < j < |r| ensures !lt(r[j], r[i]) {
        if i == 0 {
          NotLessTransitive(s[j - 1], s[0], x, lt);
        } else {
          assert r[j] == s[j - 1] && r[i] == s[i - 1];
        }
      }
    }
  }

  /** Array#sort under a strict total order: an ascending permutation. */
  function Sort<T(!new)>(s: seq<T>, lt: (T, T) -> bool): (r: seq<T>)
    requires StrictTotalOrder(lt)
    ensures multiset(r) == multiset(s)
    ensures Sorted(r, lt)
  {
    if s == [] then []
    else
      var rest := Sort(s[1..], lt);
      InsertSorted(s[0], rest, lt);
      assert s == [s[0]] + s[1..];
      Insert(s[0], rest, lt)
  }

  /** Array#uniq: the first occurrence of every element, in order. */
  function Uniq<T(==)>(s: seq<T>): (r: seq<T>)
    ensures forall i :: 0 <= i < |r| ==> r[i] in s
    ensures forall i :: 0 <= i < |s| ==> s[i] in r
    ensures Distinct(r)
    ensures |r| <= |s|
  {
    if s == [] then []
    else
      var init := s[..|s| - 1];
      var u := Uniq(init);
      if s[|s| - 1] in init then u else u + [s[|s| - 1]]
  }

  /** De-duplicating a sequence without repeats changes nothing. */
  lemma {:induction false} UniqOfDistinct<T>(s: seq<T>)
    requires Distinct(s)
    ensures Uniq(s) == s
  {
    if s != [] {
      UniqOfDistinct(s[..|s| - 1]);
      assert s == s[..|s| - 1] + [s[|s| - 1]];
    }
  }

  /** De-duplicating a sorted sequence leaves it strictly ascending: this
      is why `compact! sort! uniq!` gives a strictly ascending list. */
  lemma {:induction false} UniqOfSorted<T(!new)>(s: seq<T>, lt: (T, T) -> bool)
    requires StrictTotalOrder(lt) && Sorted(s, lt)
    ensures StrictlySorted(Uniq(s), lt)
  {
    if s != [] {
      var init := s[..|s| - 1];
      var last := s[|s| - 1];
      assert Sorted(init, lt);
      UniqOfSorted(init, lt);
      if last !in init {
        var u := Uniq(init);
        forall i | 0 <= i < |u| ensures lt(u[i], last) {
          assert u[i] in init;
          var k :| 0 <= k < |init| && init[k] == u[i];
          assert !lt(last, u[i]);
          assert u[i] != last;
        }
      }
    }
  }

  /** The first element of a strictly ascending sequence is below every
      other element of it. */
  lemma FirstIsLeast<T>(s: seq<T>, y: T, lt: (T, T) -> bool)
    requires StrictlySorted(s, lt) && y in s
    ensures y == s[0] || lt(s[0], y)
  {
    var k :| 0 <= k < |s| && s[k] == y;
  }

  /** A strictly ascending sequence is determined by its elements. */
  lemma {:induction false} StrictlySortedUnique<T(!new)>(a: seq<T>, b: seq<T>, lt: (T, T) -> bool)
    requires StrictTotalOrder(lt)
    requires StrictlySorted(a, lt) && StrictlySorted(b, lt)
    requires forall x :: x in a <==> x in b
    ensures a == b
  {
    assert (a != []) == (b != []) by {
      if a != [] {
        assert a[0] in b;
      }
      if b != [] {
        assert b[0] in a;
      }
    }
    if a != [] && b != [] {
      FirstIsLeast(a, b[0], lt);
      FirstIsLeast(b, a[0], lt);
      assert a[0] == b[0];
      forall x ensures x in a[1..] <==> x in b[1..] {
        if x in a[1..] {
          var i :| 1 <= i < |a| && a[i] == x;
          assert x in b && x != b[0];
        }
        if x in b[1..] {
          var j :| 1 <= j < |b| && b[j] == x;
          assert x in a && x != a[0];
        }
      }
      StrictlySortedUnique(a[1..], b[1..], lt);
      assert a == [a[0]] + a[1..] && b == [b[0]] + b[1..];
    }
  }

  /** A sequence without repeats has as many distinct elements as entries. */
  lemma {:induction false} DistinctCardinality<T>(s: seq<T>)
    requires Distinct(s)
    ensures |set x | x in s| == |s|
  {
    if s != [] {
      var init := s[..|s| - 1];
      DistinctCardinality(init);
      assert (set x | x in s) == (set x | x in init) + {s[|s| - 1]};
      assert s[|s| - 1] !in init;
    }
  }

  /** `Array#index`: the position of the first element equal to `x`. */
  function Position<T(==)>(s: seq<T>, x: T): (r: Option<nat>)
    ensures r.Some? ==> r.value < |s| && s[r.value] == x && x !in s[..r.value]
    ensures r.None? <==> x !in s
  {
    if s == [] then None
    else if s[0] == x then Some(0)
    else match Position(s[1..], x)
      case None => None
      case Some(k) =>
        assert s[..k + 1] == [s[0]] + s[1..][..k];
        Some(k + 1)
  }

  /** The first occurrence is where `Position` finds it. */
  lemma {:induction false} PositionAt<T>(s: seq<T>, k: nat, x: T)
    requires k < |s| && s[k] == x
    requires forall j :: 0 <= j < k ==> s[j] != x
    ensures Position(s, x) == Some(k)
  {
    if k > 0 {
      PositionAt(s[1..], k - 1, x);
    }
  }
}
