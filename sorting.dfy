/**
 * `Array.prototype.sort` with a comparator, modelled as a stable insertion sort over a
 * comparator `le` ("sorts no later than") that is a total preorder.
 */
module Sorting {
  import opened Seqs

  /** What `sort` asks of its comparator: any two elements compare, and the order is transitive. */
  ghost predicate IsTotalPreorder<T(!new)>(le: (T, T) -> bool) {
    (forall x, y :: le(x, y) || le(y, x))
    && (forall x, y, z :: le(x, y) && le(y, z) ==> le(x, z))
  }

  predicate SortedBy<T>(s: seq<T>, le: (T, T) -> bool) {
    forall i, j {:trigger le(s[i], s[j])} :: 0 <= i < j < |s| ==> le(s[i], s[j])
  }

  /** A class of elements the comparator cannot tell apart (for instance, all projects with one name). */
  ghost predicate AllTied<T(!new)>(c: T -> bool, le: (T, T) -> bool) {
    forall x, y :: c(x) && c(y) ==> le(x, y)
  }

  /** Inserts `x` before the first element it sorts no later than. */
  function Insert<T(==,!new)>(x: T, s: seq<T>, le: (T, T) -> bool): (r: seq<T>)
    ensures multiset(r) == multiset(s) + multiset{x}
    ensures forall y :: y in r <==> y == x || y in s
  {
    if s == [] || le(x, s[0]) then [x] + s
    else
      assert s == [s[0]] + s[1..];
      [s[0]] + Insert(x, s[1..], le)
  }

  lemma {:induction false} InsertKeepsSorted<T(!new)>(x: T, s: seq<T>, le: (T, T) -> bool)
    requires IsTotalPreorder(le) && SortedBy(s, le)
    ensures SortedBy(Insert(x, s, le), le)
  {
    if s == [] || le(x, s[0]) {
      var r := [x] + s;
      forall i, j | 0 <= i < j < |r|
        ensures le(r[i], r[j])
      {
        assert r[j] == s[j - 1];
        if i > 0 {
          assert r[i] == s[i - 1];
        } else if j > 1 {
          assert le(s[0], s[j - 1]);
        }
      }
    } else {
      var t := Insert(x, s[1..], le);
      InsertKeepsSorted(x, s[1..], le);
      forall j | 0 <= j < |t|
        ensures le(s[0], t[j])
      {
        assert t[j] in t;
      }
      var r := [s[0]] + t;
      forall i, j | 0 <= i < j < |r|
        ensures le(r[i], r[j])
      {
        assert r[j] == t[j - 1];
        if i > 0 {
          assert r[i] == t[i - 1];
        }
      }
    }
  }

  /** Insertion puts `x` in front of the elements of its class and leaves the class order of `s` alone. */
  lemma {:induction false} InsertInClass<T(!new)>(x: T, s: seq<T>, le: (T, T) -> bool, c: T -> bool)
    requires AllTied(c, le)
    ensures Filter(Insert(x, s, le), c) == (if c(x) then [x] else []) + Filter(s, c)
  {
    if s == [] || le(x, s[0]) {
      FilterCons(x, s, c);
    } else {
      var t := Insert(x, s[1..], le);
      var mine: seq<T> := if c(x) then [x] else [];
      var head: seq<T> := if c(s[0]) then [s[0]] else [];
      // s[0] sorts strictly before x, so the two are not in one class
      assert c(x) ==> head == [];
      calc {
        Filter(Insert(x, s, le), c);
        Filter([s[0]] + t, c);
        { FilterCons(s[0], t, c); }
        head + Filter(t, c);
        { InsertInClass(x, s[1..], le, c); }
        head + (mine + Filter(s[1..], c));
        mine + (head + Filter(s[1..], c));
        { FilterCons(s[0], s[1..], c); }
        mine + Filter([s[0]] + s[1..], c);
        { assert s == [s[0]] + s[1..]; }
        mine + Filter(s, c);
      }
    }
  }

  function InsertionSort<T(==,!new)>(s: seq<T>, le: (T, T) -> bool): (r: seq<T>)
    requires IsTotalPreorder(le)
    ensures SortedBy(r, le)
    ensures multiset(r) == multiset(s)
  {
    if s == [] then []
    else
      var t := InsertionSort(s[1..], le);
      InsertKeepsSorted(s[0], t, le);
      assert s == [s[0]] + s[1..];
      Insert(s[0], t, le)
  }

  /** Three elements where the middle one sorts first and the other two are in order. */
  lemma InsertionSortThree<T(!new)>(x: T, y: T, z: T, le: (T, T) -> bool)
    requires IsTotalPreorder(le)
    requires !le(x, y) && le(x, z) && le(y, z)
    ensures InsertionSort([x, y, z], le) == [y, x, z]
  {
    assert [x, y, z][1..] == [y, z] && [y, z][1..] == [z] && [z][1..] == [];
    assert InsertionSort([z], le) == [z];
    assert InsertionSort([y, z], le) == Insert(y, [z], le) == [y, z];
    assert Insert(x, [y, z], le) == [y] + Insert(x, [z], le) == [y, x, z];
  }

  /** Stability: elements the comparator ties keep the order they had in the input. */
  lemma {:induction false} InsertionSortStable<T(!new)>(s: seq<T>, le: (T, T) -> bool, c: T -> bool)
    requires IsTotalPreorder(le) && AllTied(c, le)
    ensures Filter(InsertionSort(s, le), c) == Filter(s, c)
  {
    if s != [] {
      InsertionSortStable(s[1..], le, c);
      InsertInClass(s[0], InsertionSort(s[1..], le), le, c);
      FilterCons(s[0], s[1..], c);
      assert s == [s[0]] + s[1..];
    }
  }
}
