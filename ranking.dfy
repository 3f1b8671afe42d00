/**
 * The order `find_emergency_airports` gives its recommendations:
 * `list.sort` with the key `(0 if no warnings else 1, distance_nm)`.
 * Python's sort is stable, so it is modelled as a stable insertion sort.
 */
module Ranking {
  import opened Models

  /** The first component of the sort key: 0 for a recommendation without warnings, 1 otherwise. */
  function Group(r: AirportRecommendation): (g: nat)
    ensures g <= 1
    ensures g == 0 <==> r.warnings == []
  {
    if |r.warnings| == 0 then 0 else 1
  }

  /** Python's tuple comparison `key(a) < key(b)`. */
  predicate KeyLess(a: AirportRecommendation, b: AirportRecommendation) {
    Group(a) < Group(b) || (Group(a) == Group(b) && a.distanceNm < b.distanceNm)
  }

  /** The two sort keys are equal. */
  predicate SameKey(a: AirportRecommendation, b: AirportRecommendation) {
    Group(a) == Group(b) && a.distanceNm == b.distanceNm
  }

  /** No element is followed by one with a smaller key. */
  predicate Sorted(s: seq<AirportRecommendation>) {
    forall i, j :: 0 <= i < j < |s| ==> !KeyLess(s[j], s[i])
  }

  /** `x` goes after every element whose key is not greater than its own, so equal keys keep their order. */
  function Insert(x: AirportRecommendation, s: seq<AirportRecommendation>): (r: seq<AirportRecommendation>)
    ensures |r| == |s| + 1
  {
    if s == [] then [x]
    else if KeyLess(x, s[0]) then [x] + s
    else [s[0]] + Insert(x, s[1..])
  }

  lemma {:induction false} InsertPermutes(x: AirportRecommendation, s: seq<AirportRecommendation>)
    ensures multiset(Insert(x, s)) == multiset(s) + multiset{x}
  {
    if s != [] && !KeyLess(x, s[0]) {
      InsertPermutes(x, s[1..]);
      assert s == [s[0]] + s[1..];
    }
  }

  /** `recommendations.sort(key=...)`: the elements inserted one by one, in list order. */
  function SortByKey(s: seq<AirportRecommendation>): (r: seq<AirportRecommendation>)
    ensures |r| == |s|
  {
    if s == [] then []
    else Insert(s[|s| - 1], SortByKey(s[..|s| - 1]))
  }

  /** Sorting neither loses nor adds a recommendation. */
  lemma {:induction false} SortByKeyPermutes(s: seq<AirportRecommendation>)
    ensures multiset(SortByKey(s)) == multiset(s)
  {
    if s != [] {
      var init, last := s[..|s| - 1], s[|s| - 1];
      SortByKeyPermutes(init);
      InsertPermutes(last, SortByKey(init));
      assert SortByKey(s) == Insert(last, SortByKey(init));
      assert s == init + [last];
      assert multiset(s) == multiset(init) + multiset{last};
    }
  }

  lemma {:induction false} InsertSorted(x: AirportRecommendation, s: seq<AirportRecommendation>)
    requires Sorted(s)
    ensures Sorted(Insert(x, s))
  {
    if s != [] && !KeyLess(x, s[0]) {
      InsertSorted(x, s[1..]);
      InsertPermutes(x, s[1..]);
      var r := Insert(x, s);
      forall j | 0 < j < |r|
        ensures !KeyLess(r[j], r[0])
      {
        assert r[j] in multiset(Insert(x, s[1..]));
        assert r[j] in multiset(s[1..]) + multiset{x};
        if r[j] != x {
          var k :| 1 <= k < |s| && s[k] == r[j] by {
            assert r[j] in s[1..];
          }
        }
      }
    }
  }

  /** The sorted list is in key order. */
  lemma {:induction false} SortByKeySorted(s: seq<AirportRecommendation>)
    ensures Sorted(SortByKey(s))
  {
    if s != [] {
      SortByKeySorted(s[..|s| - 1]);
      InsertSorted(s[|s| - 1], SortByKey(s[..|s| - 1]));
    }
  }

  /** The elements of `s` whose key equals that of `y`, in order. */
  function WithKeyOf(s: seq<AirportRecommendation>, y: AirportRecommendation): seq<AirportRecommendation> {
    if s == [] then []
    else (if SameKey(s[0], y) then [s[0]] else []) + WithKeyOf(s[1..], y)
  }

  lemma {:induction false} WithKeyOfConcat(a: seq<AirportRecommendation>, b: seq<AirportRecommendation>,
                                           y: AirportRecommendation)
    ensures WithKeyOf(a + b, y) == WithKeyOf(a, y) + WithKeyOf(b, y)
  {
    if a == [] {
      assert a + b == b;
    } else {
      assert (a + b)[1..] == a[1..] + b;
      WithKeyOfConcat(a[1..], b, y);
    }
  }

  lemma WithKeyOfCons(h: AirportRecommendation, t: seq<AirportRecommendation>, y: AirportRecommendation)
    ensures WithKeyOf([h] + t, y) == (if SameKey(h, y) then [h] else []) + WithKeyOf(t, y)
  {
    assert ([h] + t)[1..] == t;
  }

  /** Every element of `s` has a key greater than that of `y`. */
  lemma {:induction false} WithKeyOfAbove(s: seq<AirportRecommendation>, y: AirportRecommendation)
    requires forall i :: 0 <= i < |s| ==> KeyLess(y, s[i])
    ensures WithKeyOf(s, y) == []
  {
    if s != [] {
      WithKeyOfAbove(s[1..], y);
    }
  }

  /** A sorted list stays sorted without its first element. */
  lemma SortedTail(s: seq<AirportRecommendation>)
    requires Sorted(s) && s != []
    ensures Sorted(s[1..])
  {
    forall i, j | 0 <= i < j < |s| - 1
      ensures !KeyLess(s[1..][j], s[1..][i])
    {
      assert s[1..][j] == s[j + 1] && s[1..][i] == s[i + 1];
    }
  }

  /** `x` goes in front of a sorted list whose first key is greater: no element after it shares its key. */
  lemma InsertStableFront(x: AirportRecommendation, s: seq<AirportRecommendation>, y: AirportRecommendation)
    requires Sorted(s) && s != [] && KeyLess(x, s[0])
    ensures WithKeyOf([x] + s, y) == WithKeyOf(s, y) + (if SameKey(x, y) then [x] else [])
  {
    WithKeyOfConcat([x], s, y);
    assert WithKeyOf([x], y) == (if SameKey(x, y) then [x] else []) + WithKeyOf([], y);
    if SameKey(x, y) {
      forall i | 0 <= i < |s|
        ensures KeyLess(y, s[i])
      {
        if i > 0 {
          assert !KeyLess(s[i], s[0]);
        }
      }
      WithKeyOfAbove(s, y);
    }
  }

  /**
   * Inserting `x` into a sorted list appends it to the elements that share
   * its key and leaves every other key's elements alone.
   */
  lemma {:induction false} InsertStable(x: AirportRecommendation, s: seq<AirportRecommendation>,
                                        y: AirportRecommendation)
    requires Sorted(s)
    ensures WithKeyOf(Insert(x, s), y) == WithKeyOf(s, y) + (if SameKey(x, y) then [x] else [])
  {
    if s == [] {
      assert Insert(x, s) == [x];
      assert WithKeyOf([x], y) == (if SameKey(x, y) then [x] else []) + WithKeyOf([], y);
    } else if KeyLess(x, s[0]) {
      InsertStableFront(x, s, y);
    } else {
      SortedTail(s);
      InsertStable(x, s[1..], y);
      WithKeyOfConsBoth(s[0], Insert(x, s[1..]), s[1..], y, if SameKey(x, y) then [x] else []);
      assert Insert(x, s) == [s[0]] + Insert(x, s[1..]);
      assert [s[0]] + s[1..] == s;
    }
  }

  /** Putting the same element in front of two lists whose key groups differ by `tail` keeps that difference. */
  lemma WithKeyOfConsBoth(h: AirportRecommendation, t: seq<AirportRecommendation>, u: seq<AirportRecommendation>,
                          y: AirportRecommendation, tail: seq<AirportRecommendation>)
    requires WithKeyOf(t, y) == WithKeyOf(u, y) + tail
    ensures WithKeyOf([h] + t, y) == WithKeyOf([h] + u, y) + tail
  {
    WithKeyOfCons(h, t, y);
    WithKeyOfCons(h, u, y);
    var head := if SameKey(h, y) then [h] else [];
    assert head + (WithKeyOf(u, y) + tail) == (head + WithKeyOf(u, y)) + tail;
  }

  /**
   * The sort is stable: the elements of any one key appear in the result in
   * the order they had in the input.
   */
  lemma {:induction false} SortByKeyStable(s: seq<AirportRecommendation>, y: AirportRecommendation)
    ensures WithKeyOf(SortByKey(s), y) == WithKeyOf(s, y)
  {
    if s != [] {
      var init, last := s[..|s| - 1], s[|s| - 1];
      SortByKeyStable(init, y);
      SortByKeySorted(init);
      InsertStable(last, SortByKey(init), y);
      assert s == init + [last];
      WithKeyOfConcat(init, [last], y);
    }
  }

  /**
   * In a sorted list every recommendation without warnings comes before
   * every one with warnings, and distances do not decrease within a group.
   */
  lemma SortedMeansWarningFreeFirst(s: seq<AirportRecommendation>)
    requires Sorted(s)
    ensures forall i, j :: 0 <= i < |s| && 0 <= j < |s| && s[i].warnings == [] && s[j].warnings != [] ==> i < j
    ensures forall i, j :: 0 <= i < j < |s| && Group(s[i]) == Group(s[j]) ==> s[i].distanceNm <= s[j].distanceNm
  {
  }
}
