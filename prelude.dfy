/** Small building blocks shared by every module: an optional value (the
    widgets' `None`), Python's `x or default` on an optional integer,
    Python's `range(lo, hi)`, and a dictionary filled from zipped key and
    value lists, where a later pair overrides an earlier one. */
module Prelude {

  datatype Option<+T> = None | Some(value: T) {
    function GetOr(default: T): T {
      match this
      case Some(v) => v
      case None => default
    }
  }

  /** A country as a selector reports it, an opaque key such as "DE". */
  type Label = string

  /** Python's `x or d` for a widget value that is an int or `None`: both
      `None` and `0` are falsy and give way to `d`. */
  function Or(x: Option<int>, d: int): (r: int)
    ensures x.Some? && x.value != 0 ==> r == x.value
    ensures x.None? || x.value == 0 ==> r == d
    ensures d != 0 ==> r != 0
  {
    if x.Some? && x.value != 0 then x.value else d
  }

  /** Python's `range(lo, hi)`: the integers from `lo` up to, not including, `hi`. */
  function Range(lo: int, hi: int): (r: seq<int>)
    ensures |r| == if lo < hi then hi - lo else 0
    ensures forall k :: 0 <= k < |r| ==> r[k] == lo + k
    ensures forall x :: x in r <==> lo <= x < hi
  {
    var r := seq(if lo < hi then hi - lo else 0, k => lo + k);
    ConsecutiveMembers(lo, r);
    r
  }

  lemma ConsecutiveMembers(lo: int, r: seq<int>)
    requires forall k :: 0 <= k < |r| ==> r[k] == lo + k
    ensures forall x :: x in r <==> lo <= x < lo + |r|
  {
    forall x | lo <= x < lo + |r|
      ensures x in r
    {
      assert r[x - lo] == x;
    }
  }

  /** No later id among the first `n` repeats the id at `j`. */
  predicate LastOccurrence(ids: seq<Label>, j: nat, n: nat)
    requires j < n <= |ids|
  {
    forall j' :: j < j' < n ==> ids[j'] != ids[j]
  }

  /** The latest value each of the first `n` ids was given: a later pair
      overrides an earlier one. */
  function LastValuesUpTo<V>(ids: seq<Label>, vals: seq<V>, n: nat): map<Label, V>
    requires n <= |ids| && n <= |vals|
  {
    if n == 0 then map[] else LastValuesUpTo(ids, vals, n - 1)[ids[n - 1] := vals[n - 1]]
  }

  /** The keys are the first `n` ids, and each holds the value paired with
      its last occurrence. */
  lemma {:induction false} LastValuesMeaning<V>(ids: seq<Label>, vals: seq<V>, n: nat)
    requires n <= |ids| && n <= |vals|
    ensures forall k :: k in LastValuesUpTo(ids, vals, n) <==> exists j :: 0 <= j < n && ids[j] == k
    ensures forall j :: 0 <= j < n && LastOccurrence(ids, j, n) ==> LastValuesUpTo(ids, vals, n)[ids[j]] == vals[j]
  {
    if n > 0 {
      LastValuesMeaning(ids, vals, n - 1);
      assert forall j :: 0 <= j < n - 1 && LastOccurrence(ids, j, n) ==> LastOccurrence(ids, j, n - 1);
    }
  }

  /** How many tuples `zip` yields from lists of the given lengths: the
      shortest length, and none when there are no lists. */
  function ZipLength(lengths: seq<nat>): (n: nat)
    ensures forall i :: 0 <= i < |lengths| ==> n <= lengths[i]
    ensures forall l :: l in lengths ==> n <= l
    ensures lengths != [] ==> n in lengths
    ensures lengths == [] ==> n == 0
  {
    if lengths == [] then 0
    else if |lengths| == 1 then lengths[0]
    else
      var rest := ZipLength(lengths[1..]);
      assert forall i :: 1 <= i < |lengths| ==> lengths[i] == lengths[1..][i - 1];
      if lengths[0] < rest then lengths[0] else rest
  }

  /** `dict(zip(ids, values))`: zip stops at the shorter list. */
  function LastValues<V>(ids: seq<Label>, vals: seq<V>): map<Label, V> {
    LastValuesUpTo(ids, vals, ZipLength([|ids|, |vals|]))
  }
}
