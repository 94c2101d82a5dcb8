/**
 * Exact-value frequency tallies, as `collections.Counter` computes them, and
 * the choice `Counter(s).most_common(1)[0]` makes: the highest count, ties
 * going to the value that occurs first in `s` (dictionary insertion order,
 * scanned by `max`).
 */
module Tally {

  /** Number of positions of `s` holding `v`. */
  function Count<T(==)>(s: seq<T>, v: T): nat
  {
    if |s| == 0 then 0 else (if s[0] == v then 1 else 0) + Count(s[1..], v)
  }

  /** Position `k` holds a value of maximal count, and no earlier position does. */
  ghost predicate IsFirstMode<T>(s: seq<T>, k: int) {
    && 0 <= k < |s|
    && (forall j :: 0 <= j < |s| ==> Count(s, s[j]) <= Count(s, s[k]))
    && (forall j :: 0 <= j < k ==> Count(s, s[j]) < Count(s, s[k]))
  }

  lemma {:induction false} CountPositiveOccurs<T>(s: seq<T>, v: T)
    requires Count(s, v) > 0
    ensures exists j :: 0 <= j < |s| && s[j] == v
  {
    if s[0] != v {
      CountPositiveOccurs(s[1..], v);
      var j :| 0 <= j < |s[1..]| && s[1..][j] == v;
      assert s[j + 1] == v;
    }
  }

  lemma {:induction false} CountAtMostLength<T>(s: seq<T>, v: T)
    ensures Count(s, v) <= |s|
  {
    if |s| > 0 {
      CountAtMostLength(s[1..], v);
    }
  }

  lemma {:induction false} CountConcat<T>(a: seq<T>, b: seq<T>, v: T)
    ensures Count(a + b, v) == Count(a, v) + Count(b, v)
  {
    if |a| == 0 {
      assert a + b == b;
    } else {
      assert (a + b)[1..] == a[1..] + b;
      CountConcat(a[1..], b, v);
    }
  }

  /** A sequence made of one repeated value counts that value at every position. */
  lemma {:induction false} CountConstant<T>(s: seq<T>, v: T)
    requires forall j :: 0 <= j < |s| ==> s[j] == v
    ensures Count(s, v) == |s|
  {
    if |s| > 0 {
      CountConstant(s[1..], v);
    }
  }

  /** The left-to-right scan `max` performs over the tallies, keeping the first maximum. */
  function ScanMode<T(==)>(s: seq<T>, i: nat, best: nat): (k: nat)
    requires best < i <= |s|
    requires forall j :: 0 <= j < i ==> Count(s, s[j]) <= Count(s, s[best])
    requires forall j :: 0 <= j < best ==> Count(s, s[j]) < Count(s, s[best])
    ensures IsFirstMode(s, k)
    decreases |s| - i
  {
    if i == |s| then best
    else if Count(s, s[i]) > Count(s, s[best]) then ScanMode(s, i + 1, i)
    else ScanMode(s, i + 1, best)
  }

  /** Index of the most common value of a non-empty sequence, first occurrence on ties. */
  function ModeIndex<T(==)>(s: seq<T>): (k: nat)
    requires |s| > 0
    ensures IsFirstMode(s, k)
  {
    ScanMode(s, 1, 0)
  }

  /** The first mode is unique, so `ModeIndex` is the only index the tie-break allows. */
  lemma FirstModeUnique<T>(s: seq<T>, k1: int, k2: int)
    requires IsFirstMode(s, k1) && IsFirstMode(s, k2)
    ensures k1 == k2
  {
    var c1, c2 := Count(s, s[k1]), Count(s, s[k2]);
    assert k1 < k2 ==> c1 < c2;
    assert k2 < k1 ==> c2 < c1;
  }

  /** No value, in the sequence or not, is more frequent than the first mode. */
  lemma ModeDominates<T>(s: seq<T>, k: int, v: T)
    requires IsFirstMode(s, k)
    ensures Count(s, v) <= Count(s, s[k])
  {
    if Count(s, v) > 0 {
      CountPositiveOccurs(s, v);
    }
  }

  /**
   * `most_common(1)[0]`: the chosen value and its count. The count bounds the
   * count of every value, and the chosen value occurs before any other value
   * reaching the same count.
   */
  function MostCommon<T(==,!new)>(s: seq<T>): (res: (T, nat))
    requires |s| > 0
    ensures res.0 in s && res.1 == Count(s, res.0) && 0 < res.1 <= |s|
    ensures forall v :: Count(s, v) <= res.1
    ensures forall j :: 0 <= j < |s| && Count(s, s[j]) == res.1 ==>
              exists i :: 0 <= i <= j && s[i] == res.0
  {
    var k := ModeIndex(s);
    assert Count(s, s[k]) >= 1 by {
      CountConstant([s[k]], s[k]);
      CountConcat(s[..k], s[k..], s[k]);
      CountConcat([s[k]], s[k + 1..], s[k]);
      assert s[k..] == [s[k]] + s[k + 1..];
      assert s == s[..k] + s[k..];
    }
    CountAtMostLength(s, s[k]);
    forall v ensures Count(s, v) <= Count(s, s[k]) {
      ModeDominates(s, k, v);
    }
    forall j | 0 <= j < |s| && Count(s, s[j]) == Count(s, s[k])
      ensures exists i :: 0 <= i <= j && s[i] == s[k]
    {
      assert k <= j;
    }
    (s[k], Count(s, s[k]))
  }
}
