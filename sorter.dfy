/** `times.sort()` and the loop that looks every sorted time up in
    `entryMap`. `Array.prototype.sort` without a comparator compares the
    string forms of the numbers, so the order is that of `Key`. */
module Sorter {
  import opened Text
  import opened Decimal
  import opened Scanner

  /** The comparison the default sort applies to two numbers. */
  predicate KeyLessEq(a: nat, b: nat)
  {
    LessEq(Key(a), Key(b))
  }

  predicate SortedByKey(s: seq<nat>)
  {
    forall k :: 0 <= k < |s| - 1 ==> KeyLessEq(s[k], s[k + 1])
  }

  function Insert(t: nat, s: seq<nat>): (r: seq<nat>)
    ensures |r| == |s| + 1
    ensures multiset(r) == multiset(s) + multiset{t}
    ensures r[0] == t || (s != [] && r[0] == s[0])
    ensures SortedByKey(s) ==> SortedByKey(r)
  {
    if s == [] then [t]
    else if KeyLessEq(t, s[0]) then [t] + s
    else
      LessEqTotal(Key(t), Key(s[0]));
      var rest := Insert(t, s[1..]);
      assert s == [s[0]] + s[1..];
      [s[0]] + rest
  }

  /** The result of `times.sort()`: a permutation of the times, ordered by
      their string forms. */
  function SortTimes(ts: seq<nat>): (r: seq<nat>)
    ensures |r| == |ts|
    ensures multiset(r) == multiset(ts)
    ensures SortedByKey(r)
  {
    if ts == [] then []
    else
      assert ts == [ts[0]] + ts[1..];
      Insert(ts[0], SortTimes(ts[1..]))
  }

  /** The first element of a sorted sequence comes before every element. */
  lemma {:induction false} SortedFirstLeast(s: seq<nat>, k: nat)
    requires SortedByKey(s) && k < |s|
    ensures KeyLessEq(s[0], s[k])
  {
    if k > 0 {
      SortedFirstLeast(s, k - 1);
      LessEqTransitive(Key(s[0]), Key(s[k - 1]), Key(s[k]));
    }
  }

  /** Two sorted arrangements of the same times start with the same time. */
  lemma SortedSameFirst(r: seq<nat>, s: seq<nat>)
    requires multiset(r) == multiset(s) && r != []
    requires SortedByKey(r) && SortedByKey(s)
    ensures s != [] && r[0] == s[0]
  {
    assert r[0] in multiset(s);
    var a :| 0 <= a < |s| && s[a] == r[0];
    assert s[0] in multiset(r);
    var b :| 0 <= b < |r| && r[b] == s[0];
    SortedFirstLeast(s, a);
    SortedFirstLeast(r, b);
    LessEqAntisymmetric(Key(r[0]), Key(s[0]));
    ShowInjective(r[0], s[0]);
  }

  /** Two sorted arrangements of the same times are the same sequence. */
  lemma {:induction false} SortedPermutationsEqual(r: seq<nat>, s: seq<nat>)
    requires multiset(r) == multiset(s)
    requires SortedByKey(r) && SortedByKey(s)
    ensures r == s
    decreases |r|
  {
    if r == [] {
      assert |s| == |multiset(s)| == 0;
    } else {
      SortedSameFirst(r, s);
      assert r == [r[0]] + r[1..] && s == [s[0]] + s[1..];
      assert multiset(r[1..]) == multiset(r) - multiset{r[0]} == multiset(s[1..]);
      assert SortedByKey(r[1..]) && SortedByKey(s[1..]);
      SortedPermutationsEqual(r[1..], s[1..]);
    }
  }

  /** The sort's result is determined by what it must be: any permutation
      of the times that is ordered by their string forms is it. */
  lemma SortTimesUnique(ts: seq<nat>, r: seq<nat>)
    requires multiset(r) == multiset(ts) && SortedByKey(r)
    ensures r == SortTimes(ts)
  {
    SortedPermutationsEqual(r, SortTimes(ts));
  }

  /** The default sort is not numeric: 10 comes before 9. */
  lemma StringOrderIsNotNumeric()
    ensures SortTimes([9, 10]) == [10, 9]
  {
  }

  lemma {:induction false} AdjacentToPairwise(s: seq<nat>)
    requires forall k :: 0 <= k < |s| - 1 ==> s[k] <= s[k + 1]
    ensures forall a, b :: 0 <= a < b < |s| ==> s[a] <= s[b]
  {
    if |s| > 1 {
      AdjacentToPairwise(s[1..]);
      forall a, b | 0 <= a < b < |s| ensures s[a] <= s[b] {
        if a > 0 {
          assert s[a] == s[1..][a - 1] && s[b] == s[1..][b - 1];
        } else {
          assert s[1] == s[1..][0] && s[b] == s[1..][b - 1];
        }
      }
    }
  }

  lemma TwoPositions(s: seq<nat>, a: nat, b: nat)
    requires a < b < |s| && s[a] == s[b]
    ensures multiset(s)[s[a]] >= 2
  {
    assert s == s[..a] + [s[a]] + s[a + 1..b] + [s[b]] + s[b + 1..];
  }

  /** A time counted twice occurs at two positions. */
  lemma {:induction false} TwoOccurrences(s: seq<nat>, t: nat)
    requires multiset(s)[t] >= 2
    ensures exists a, b :: 0 <= a < b < |s| && s[a] == t && s[b] == t
  {
    assert s == [s[0]] + s[1..];
    if s[0] == t {
      assert t in multiset(s[1..]);
      var b :| 0 <= b < |s[1..]| && s[1..][b] == t;
      assert s[b + 1] == t;
    } else {
      TwoOccurrences(s[1..], t);
      var a, b :| 0 <= a < b < |s[1..]| && s[1..][a] == t && s[1..][b] == t;
      assert s[a + 1] == t && s[b + 1] == t;
    }
  }

  /** When all times are written with the same number of digits (every
      millisecond time between September 2001 and November 2286 is), the
      string order is the numeric one: the sorted times ascend, strictly
      when no time repeats. */
  lemma {:induction false} SortedChronologically(ts: seq<nat>)
    requires forall a, b :: a in ts && b in ts ==> |Key(a)| == |Key(b)|
    ensures forall a, b :: 0 <= a < b < |SortTimes(ts)| ==> SortTimes(ts)[a] <= SortTimes(ts)[b]
    ensures (forall t :: multiset(ts)[t] <= 1) ==>
              forall a, b :: 0 <= a < b < |SortTimes(ts)| ==> SortTimes(ts)[a] < SortTimes(ts)[b]
  {
    var r := SortTimes(ts);
    forall k | 0 <= k < |r| - 1 ensures r[k] <= r[k + 1] {
      assert r[k] in multiset(ts) && r[k + 1] in multiset(ts);
      SameLengthOrder(r[k], r[k + 1]);
    }
    AdjacentToPairwise(r);
    if forall t :: multiset(ts)[t] <= 1 {
      forall a, b | 0 <= a < b < |r| ensures r[a] < r[b] {
        if r[a] == r[b] {
          TwoPositions(r, a, b);
        }
      }
    }
  }

  /** The lookup loop: `sortedEntries.push(entryMap['' + time])` for each
      sorted time. */
  method BuildSorted(sortedTimes: seq<nat>, entryMap: map<string, Entry>) returns (sortedEntries: seq<Entry>)
    requires forall t :: t in sortedTimes ==> Key(t) in entryMap
    ensures |sortedEntries| == |sortedTimes|
    ensures forall k :: 0 <= k < |sortedTimes| ==> sortedEntries[k] == entryMap[Key(sortedTimes[k])]
  {
    sortedEntries := [];
    var i := 0;
    while i < |sortedTimes|
      invariant 0 <= i <= |sortedTimes|
      invariant |sortedEntries| == i
      invariant forall k :: 0 <= k < i ==> sortedEntries[k] == entryMap[Key(sortedTimes[k])]
    {
      var time := sortedTimes[i];
      sortedEntries := sortedEntries + [entryMap[Key(time)]];
      i := i + 1;
    }
  }
}
