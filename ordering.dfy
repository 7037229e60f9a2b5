/**
 * `bakeries.OrderBy(b => b.DistanceMeters)`: LINQ's `OrderBy` is a stable
 * sort, modelled here as an insertion sort that puts each record in front of
 * every record that is not nearer than it.
 */
module Ordering {
  import opened OsmModels

  predicate SortedByDistance(s: seq<BakeryDto>) {
    forall i, j | 0 <= i < j < |s| :: s[i].DistanceMeters <= s[j].DistanceMeters
  }

  /** The records of `s` lying exactly `d` metres away, in their order in `s`. */
  function AtDistance(s: seq<BakeryDto>, d: real): seq<BakeryDto>
    decreases |s|
  {
    if s == [] then []
    else (if s[0].DistanceMeters == d then [s[0]] else []) + AtDistance(s[1..], d)
  }

  /** Puts `b` in front of the first record of `s` that is at least as far away. */
  function Insert(b: BakeryDto, s: seq<BakeryDto>): (r: seq<BakeryDto>)
    requires SortedByDistance(s)
    ensures SortedByDistance(r)
    ensures multiset(r) == multiset(s) + multiset{b}
    decreases |s|
  {
    if s == [] || b.DistanceMeters <= s[0].DistanceMeters then
      ConsSorted(b, s);
      [b] + s
    else
      var rest := Insert(b, s[1..]);
      assert multiset(s) == multiset{s[0]} + multiset(s[1..]) by { assert s == [s[0]] + s[1..]; }
      AllAtLeast(s[0].DistanceMeters, s[1..], b, rest);
      ConsSorted(s[0], rest);
      [s[0]] + rest
  }

  /** A record no farther than every record of a sorted sequence can be put in front of it. */
  lemma ConsSorted(x: BakeryDto, s: seq<BakeryDto>)
    requires SortedByDistance(s)
    requires forall j | 0 <= j < |s| :: x.DistanceMeters <= s[j].DistanceMeters
    ensures SortedByDistance([x] + s)
  {
    var r := [x] + s;
    forall i, j | 0 <= i < j < |r| ensures r[i].DistanceMeters <= r[j].DistanceMeters {
      assert r[j] == s[j - 1];
      if i > 0 {
        assert r[i] == s[i - 1];
      }
    }
  }

  /** A lower bound of every record of `s` and of `b` bounds every record of a rearrangement of both. */
  lemma AllAtLeast(x: real, s: seq<BakeryDto>, b: BakeryDto, rest: seq<BakeryDto>)
    requires forall k | 0 <= k < |s| :: x <= s[k].DistanceMeters
    requires x <= b.DistanceMeters
    requires multiset(rest) == multiset(s) + multiset{b}
    ensures forall j | 0 <= j < |rest| :: x <= rest[j].DistanceMeters
  {
    forall j | 0 <= j < |rest| ensures x <= rest[j].DistanceMeters {
      assert rest[j] in multiset(rest);
      if rest[j] != b {
        assert rest[j] in multiset(s);
        var k :| 0 <= k < |s| && s[k] == rest[j];
      }
    }
  }

  /** The stable sort of `s` by distance. */
  function OrderByDistance(s: seq<BakeryDto>): (r: seq<BakeryDto>)
    ensures SortedByDistance(r)
    ensures multiset(r) == multiset(s) && |r| == |s|
    decreases |s|
  {
    if s == [] then []
    else
      assert s == [s[0]] + s[1..];
      Insert(s[0], OrderByDistance(s[1..]))
  }

  lemma {:induction false} AtDistanceAppend(a: seq<BakeryDto>, b: seq<BakeryDto>, d: real)
    ensures AtDistance(a + b, d) == AtDistance(a, d) + AtDistance(b, d)
    decreases |a|
  {
    if a != [] {
      assert (a + b)[1..] == a[1..] + b;
      AtDistanceAppend(a[1..], b, d);
    } else {
      assert a + b == b;
    }
  }

  /** Inserting `b` adds it in front of the records at its own distance. */
  lemma {:induction false} InsertAtDistance(b: BakeryDto, s: seq<BakeryDto>, d: real)
    requires SortedByDistance(s)
    ensures AtDistance(Insert(b, s), d) == (if b.DistanceMeters == d then [b] else []) + AtDistance(s, d)
    decreases |s|
  {
    if s == [] || b.DistanceMeters <= s[0].DistanceMeters {
      AtDistanceAppend([b], s, d);
    } else {
      InsertAtDistance(b, s[1..], d);
      AtDistanceAppend([s[0]], Insert(b, s[1..]), d);
      AtDistanceAppend([s[0]], s[1..], d);
      assert [s[0]] + s[1..] == s;
    }
  }

  /**
   * Stability: among records at any one distance the sorted order is the
   * input order.
   */
  lemma {:induction false} OrderByDistanceStable(s: seq<BakeryDto>, d: real)
    ensures AtDistance(OrderByDistance(s), d) == AtDistance(s, d)
    decreases |s|
  {
    if s != [] {
      OrderByDistanceStable(s[1..], d);
      InsertAtDistance(s[0], OrderByDistance(s[1..]), d);
    }
  }

  lemma {:induction false} AtDistanceMembers(s: seq<BakeryDto>, d: real, x: BakeryDto)
    ensures x in AtDistance(s, d) <==> x in s && x.DistanceMeters == d
    decreases |s|
  {
    if s != [] {
      AtDistanceMembers(s[1..], d, x);
      assert x in s <==> x == s[0] || x in s[1..] by { assert s == [s[0]] + s[1..]; }
    }
  }

  /**
   * A sorted sequence is fixed by what it holds at each distance: the
   * sortedness and stability statements above determine `OrderBy`'s result.
   */
  lemma {:induction false} SortedUnique(r1: seq<BakeryDto>, r2: seq<BakeryDto>)
    requires SortedByDistance(r1) && SortedByDistance(r2)
    requires forall d :: AtDistance(r1, d) == AtDistance(r2, d)
    ensures r1 == r2
    decreases |r1|
  {
    if r1 == [] || r2 == [] {
      var r := if r1 == [] then r2 else r1;
      assert r != [] ==> AtDistance(r, r[0].DistanceMeters) != [];
    } else {
      SameHead(r1, r2);
      var head := r1[0];
      forall d ensures AtDistance(r1[1..], d) == AtDistance(r2[1..], d) {
        AtDistanceTail(r1, d);
        AtDistanceTail(r2, d);
      }
      SortedUnique(r1[1..], r2[1..]);
      assert r1 == [head] + r1[1..] && r2 == [head] + r2[1..];
    }
  }

  /** Two non-empty sorted sequences with the same records at each distance start alike. */
  lemma SameHead(r1: seq<BakeryDto>, r2: seq<BakeryDto>)
    requires r1 != [] && r2 != []
    requires SortedByDistance(r1) && SortedByDistance(r2)
    requires forall d :: AtDistance(r1, d) == AtDistance(r2, d)
    ensures r1[0] == r2[0]
  {
    var d1, d2 := r1[0].DistanceMeters, r2[0].DistanceMeters;
    AtDistanceMembers(r1, d1, r1[0]);
    AtDistanceMembers(r2, d1, r1[0]);
    AtDistanceMembers(r2, d2, r2[0]);
    AtDistanceMembers(r1, d2, r2[0]);
    assert d1 == d2;
    assert AtDistance(r1, d1)[0] == r1[0] && AtDistance(r2, d1)[0] == r2[0];
  }

  /** Dropping the first record drops it from the records at its distance only. */
  lemma AtDistanceTail(r: seq<BakeryDto>, d: real)
    requires r != []
    ensures AtDistance(r[1..], d) == AtDistance(r, d)[(if r[0].DistanceMeters == d then 1 else 0)..]
  {
    var prefix := if r[0].DistanceMeters == d then [r[0]] else [];
    assert AtDistance(r, d) == prefix + AtDistance(r[1..], d);
    assert (prefix + AtDistance(r[1..], d))[|prefix|..] == AtDistance(r[1..], d);
  }
}
