/**
  normalize of extras/rebalance.py: sorting the bricks that have a range so that their ranges
  follow each other around the ring, or stopping when the scan for the next range finds a gap or a
  brick without a range.
 */
module Normalize {
  import opened Wrappers
  import opened Basics
  import opened Layout

  /** A brick and its present range, if it has one. */
  datatype Item<X> = Item(brick: X, range: Option<Range>)

  /** The scan for a range that starts at `c`. It stops without result when no range does, and
      also when it meets a brick without range first: reading its r_start raises an exception. */
  function Pick<X>(xs: seq<Item<X>>, c: int): (r: Option<nat>)
    ensures r.Some? ==> r.value < |xs| && xs[r.value].range.Some? && xs[r.value].range.value.first == c
  {
    if xs == [] || xs[0].range.None? then None
    else if xs[0].range.value.first == c then Some(0)
    else
      match Pick(xs[1..], c)
      case None => None
      case Some(i) => Some(i + 1)
  }

  /** The range at `i` is where the scan ends: the first that starts at `c`, with no brick without range before. */
  lemma {:induction false} PickIsFirst<X>(xs: seq<Item<X>>, c: int, i: nat)
    ensures Pick(xs, c) == Some(i) <==>
      && i < |xs| && xs[i].range.Some? && xs[i].range.value.first == c
      && forall j :: 0 <= j < i ==> xs[j].range.Some? && xs[j].range.value.first != c
  {
    if xs != [] && xs[0].range.Some? && xs[0].range.value.first != c && i > 0 {
      PickIsFirst(xs[1..], c, i - 1);
    }
  }

  function Without<X>(xs: seq<X>, i: nat): seq<X>
    requires i < |xs|
  {
    xs[..i] + xs[i + 1..]
  }

  /** The bricks in ring order from `c` on, and those left over; None when a scan stops without result. */
  function From<X>(xs: seq<Item<X>>, c: int): Option<(seq<Item<X>>, seq<Item<X>>)>
    decreases |xs|
  {
    if c >= RING then Some(([], xs))
    else
      match Pick(xs, c)
      case None => None
      case Some(i) =>
        match From(Without(xs, i), xs[i].range.value.last + 1)
        case None => None
        case Some((picked, left)) => Some(([xs[i]] + picked, left))
  }

  /** Ranges that follow each other without gap from `c` to the end of the ring. */
  predicate Tiles<X>(xs: seq<Item<X>>, c: int)
    decreases |xs|
  {
    if xs == [] then c == RING
    else xs[0].range.Some? && xs[0].range.value.first == c && Tiles(xs[1..], xs[0].range.value.last + 1)
  }

  /** Every range is a proper stretch of the ring. */
  predicate Proper<X>(xs: seq<Item<X>>) {
    forall i :: 0 <= i < |xs| && xs[i].range.Some? ==> 0 <= xs[i].range.value.first <= xs[i].range.value.last < RING
  }

  lemma MultisetWithout<X>(xs: seq<X>, i: nat)
    requires i < |xs|
    ensures multiset(xs) == multiset{xs[i]} + multiset(Without(xs, i))
  {
    assert xs == xs[..i] + [xs[i]] + xs[i + 1..];
  }

  lemma {:induction false} NormalizePermutes<X>(xs: seq<Item<X>>, c: int)
    requires From(xs, c).Some?
    ensures multiset(From(xs, c).value.0) + multiset(From(xs, c).value.1) == multiset(xs)
    decreases |xs|
  {
    if c < RING {
      var i := Pick(xs, c).value;
      MultisetWithout(xs, i);
      NormalizePermutes(Without(xs, i), xs[i].range.value.last + 1);
      var picked := From(Without(xs, i), xs[i].range.value.last + 1).value.0;
      assert multiset([xs[i]] + picked) == multiset{xs[i]} + multiset(picked);
    }
  }

  lemma ProperWithout<X>(xs: seq<Item<X>>, i: nat)
    requires Proper(xs) && i < |xs|
    ensures Proper(Without(xs, i))
  {
    var rest := Without(xs, i);
    forall j | 0 <= j < |rest| && rest[j].range.Some?
      ensures 0 <= rest[j].range.value.first <= rest[j].range.value.last < RING
    {
      WithoutMember(xs, i, j);
    }
  }

  lemma {:induction false} NormalizeTiles<X>(xs: seq<Item<X>>, c: int)
    requires Proper(xs) && c <= RING && From(xs, c).Some?
    ensures Tiles(From(xs, c).value.0, c)
    decreases |xs|
  {
    if c < RING {
      var i := Pick(xs, c).value;
      ProperWithout(xs, i);
      NormalizeTiles(Without(xs, i), xs[i].range.value.last + 1);
      var picked := From(Without(xs, i), xs[i].range.value.last + 1).value.0;
      assert ([xs[i]] + picked)[1..] == picked;
    }
  }

  /** When normalize returns, it has only rearranged the bricks, and the first ones tile the ring. */
  lemma NormalizeSorts<X>(xs: seq<Item<X>>)
    requires Proper(xs) && From(xs, 0).Some?
    ensures var (picked, left) := From(xs, 0).value;
      multiset(picked + left) == multiset(xs) && Tiles(picked, 0)
  {
    NormalizePermutes(xs, 0);
    NormalizeTiles(xs, 0);
  }

  // ---- when it returns ---------------------------------------------------------------

  /** Bricks with a range come before bricks without one. */
  predicate LaidOutFirst<X>(xs: seq<Item<X>>) {
    forall i, j :: 0 <= i < j < |xs| && xs[i].range.None? ==> xs[j].range.None?
  }

  predicate Holds<X>(xs: seq<Item<X>>, i: nat, h: int)
    requires i < |xs|
  {
    xs[i].range.Some? && xs[i].range.value.Has(h)
  }

  predicate Covered<X>(xs: seq<Item<X>>, h: int) {
    exists i :: 0 <= i < |xs| && Holds(xs, i, h)
  }

  /** Each hash from `c` on is in exactly one range, and the ranges have no other hashes. */
  ghost predicate Partition<X>(xs: seq<Item<X>>, c: int) {
    && (forall h :: c <= h < RING ==> Covered(xs, h))
    && (forall h, i, j :: 0 <= i < |xs| && 0 <= j < |xs| && Holds(xs, i, h) && Holds(xs, j, h) ==> i == j)
    && (forall i :: 0 <= i < |xs| && xs[i].range.Some? ==>
          c <= xs[i].range.value.first <= xs[i].range.value.last < RING)
  }

  lemma {:induction false} PickFinds<X>(xs: seq<Item<X>>, c: int, i: nat)
    requires LaidOutFirst(xs) && i < |xs| && xs[i].range.Some? && xs[i].range.value.first == c
    ensures Pick(xs, c).Some?
  {
    if xs[0].range.Some? && xs[0].range.value.first != c {
      assert LaidOutFirst(xs[1..]) && xs[1..][i - 1] == xs[i];
      PickFinds(xs[1..], c, i - 1);
    }
  }

  lemma WithoutMember<X>(xs: seq<X>, i: nat, j: nat)
    requires i < |xs| && j < |xs| - 1
    ensures Without(xs, i)[j] == if j < i then xs[j] else xs[j + 1]
  {
  }

  /** Taking the first range away leaves a partition of the rest of the ring. */
  lemma PartitionRest<X>(xs: seq<Item<X>>, c: int, i: nat)
    requires Partition(xs, c) && LaidOutFirst(xs) && i < |xs| && xs[i].range.Some? && xs[i].range.value.first == c
    ensures Partition(Without(xs, i), xs[i].range.value.last + 1) && LaidOutFirst(Without(xs, i))
  {
    var rest, c1 := Without(xs, i), xs[i].range.value.last + 1;
    forall h | c1 <= h < RING ensures Covered(rest, h) {
      assert Covered(xs, h);
      var k :| 0 <= k < |xs| && Holds(xs, k, h);
      assert k != i;
      var j := if k < i then k else k - 1;
      WithoutMember(xs, i, j);
      assert Holds(rest, j, h);
    }
    forall a, b | 0 <= a < b < |rest| && rest[a].range.None? ensures rest[b].range.None? {
      WithoutMember(xs, i, a);
      WithoutMember(xs, i, b);
    }
    forall j | 0 <= j < |rest| && rest[j].range.Some?
      ensures c1 <= rest[j].range.value.first <= rest[j].range.value.last < RING
    {
      var k := if j < i then j else j + 1;
      WithoutMember(xs, i, j);
      var f := xs[k].range.value.first;
      assert Holds(xs, k, f);
      assert Holds(xs, i, f) <==> c <= f < c1;
    }
    forall h, a, b | 0 <= a < |rest| && 0 <= b < |rest| && Holds(rest, a, h) && Holds(rest, b, h) ensures a == b {
      WithoutMember(xs, i, a);
      WithoutMember(xs, i, b);
      assert Holds(xs, if a < i then a else a + 1, h) && Holds(xs, if b < i then b else b + 1, h);
    }
  }

  /** normalize always returns when the ranges partition the ring and come first. */
  lemma {:induction false} NormalizeReturns<X>(xs: seq<Item<X>>, c: int)
    requires Partition(xs, c) && LaidOutFirst(xs) && c <= RING
    ensures From(xs, c).Some?
    decreases |xs|
  {
    if c < RING {
      assert Covered(xs, c);
      var k :| 0 <= k < |xs| && Holds(xs, k, c);
      PickFinds(xs, c, k);
      var i := Pick(xs, c).value;
      PartitionRest(xs, c, i);
      NormalizeReturns(Without(xs, i), xs[i].range.value.last + 1);
    }
  }

  /** A scan that finds something has met no brick without range before. */
  lemma {:induction false} PickBeforeBare<X>(xs: seq<Item<X>>, c: int, i: nat)
    requires i < |xs| && xs[i].range.None? && Pick(xs, c).Some?
    ensures Pick(xs, c).value < i
  {
    if xs[0].range.Some? && xs[0].range.value.first != c {
      PickBeforeBare(xs[1..], c, i - 1);
    }
  }

  /** Taking away a brick before both leaves a brick without range before one with a range. */
  lemma BareFirstRest<X>(xs: seq<Item<X>>, k: nat, i: nat, j: nat)
    requires k < i < j < |xs|
    ensures Without(xs, k)[i - 1] == xs[i] && Without(xs, k)[j - 1] == xs[j]
  {
    WithoutMember(xs, k, i - 1);
    WithoutMember(xs, k, j - 1);
  }

  /** A range behind a brick without range is never reached, so normalize cannot come past it. */
  lemma {:induction false} BareFirstStops<X>(xs: seq<Item<X>>, c: int, i: nat, j: nat)
    requires Proper(xs) && c <= RING && i < j < |xs| && xs[i].range.None? && xs[j].range.Some?
    requires c <= xs[j].range.value.first && AllApart(xs, j)
    ensures From(xs, c).None?
    decreases |xs|
  {
    if c < RING && Pick(xs, c).Some? {
      var k := Pick(xs, c).value;
      PickBeforeBare(xs, c, i);
      var rest, next := Without(xs, k), xs[k].range.value.last + 1;
      assert |rest| == |xs| - 1;
      assert rest[i - 1] == xs[i] && rest[j - 1] == xs[j] by {
        BareFirstRest(xs, k, i, j);
      }
      ProperWithout(xs, k);
      assert next <= xs[j].range.value.first && AllApart(rest, j - 1) by {
        ApartRest(xs, k, j, c);
      }
      BareFirstStops(rest, next, i - 1, j - 1);
    }
  }

  /** Range `j` has no hash in common with any other range. */
  ghost predicate AllApart<X>(xs: seq<Item<X>>, j: nat)
    requires j < |xs| && xs[j].range.Some?
  {
    forall k :: 0 <= k < |xs| && k != j && xs[k].range.Some? ==> Apart(xs[k].range.value, xs[j].range.value)
  }

  predicate Apart(a: Range, b: Range) {
    a.last < b.first || b.last < a.first
  }

  lemma ApartRest<X>(xs: seq<Item<X>>, k: nat, j: nat, c: int)
    requires Proper(xs) && k < j < |xs| && xs[j].range.Some? && xs[k].range.Some? && xs[k].range.value.first == c
    requires c <= xs[j].range.value.first && AllApart(xs, j)
    ensures Without(xs, k)[j - 1] == xs[j]
    ensures xs[k].range.value.last + 1 <= xs[j].range.value.first
    ensures AllApart(Without(xs, k), j - 1)
  {
    var rest := Without(xs, k);
    WithoutMember(xs, k, j - 1);
    assert Apart(xs[k].range.value, xs[j].range.value);
    forall m | 0 <= m < |rest| && m != j - 1 && rest[m].range.Some?
      ensures Apart(rest[m].range.value, rest[j - 1].range.value)
    {
      WithoutMember(xs, k, m);
    }
  }

  /** When the ranges partition the ring, normalize returns if and only if the bricks that have one
      come first. */
  lemma NormalizeReturnsIff<X>(xs: seq<Item<X>>)
    requires Partition(xs, 0)
    ensures From(xs, 0).Some? <==> LaidOutFirst(xs)
  {
    if LaidOutFirst(xs) {
      NormalizeReturns(xs, 0);
    } else {
      var i, j :| 0 <= i < j < |xs| && xs[i].range.None? && !xs[j].range.None?;
      forall k | 0 <= k < |xs| && k != j && xs[k].range.Some? ensures Apart(xs[k].range.value, xs[j].range.value) {
        var a, b := xs[k].range.value, xs[j].range.value;
        assert Holds(xs, k, a.first) && Holds(xs, j, b.first);
        assert Holds(xs, j, a.first) <==> b.first <= a.first <= b.last;
        assert Holds(xs, k, b.first) <==> a.first <= b.first <= a.last;
      }
      BareFirstStops(xs, 0, i, j);
    }
  }

  /** A concrete case: a new brick in front of one that has the whole ring stops normalize, although
      there is no gap. */
  lemma NewBrickFirst<X>(a: X, b: X)
    ensures var xs := [Item(a, None), Item(b, Some(Range(0, RING - 1)))];
      Partition(xs, 0) && From(xs, 0).None? && From([xs[1], xs[0]], 0).Some?
  {
    var xs := [Item(a, None), Item(b, Some(Range(0, RING - 1)))];
    forall h | 0 <= h < RING ensures Covered(xs, h) {
      assert Holds(xs, 1, h);
    }
    assert Pick(xs, 0) == None;
    var ys := [xs[1], xs[0]];
    assert Pick(ys, 0) == Some(0);
    assert From(Without(ys, 0), RING).Some?;
  }

  // ---- what is left over -------------------------------------------------------------

  lemma OnlyWithout<X>(s: seq<X>, i: nat, keep: set<X>)
    requires i < |s| && s[i] !in keep
    ensures Only(Without(s, i), keep) == Only(s, keep)
  {
    assert s == s[..i] + [s[i]] + s[i + 1..];
    OnlyAppend(s[..i] + [s[i]], s[i + 1..], keep);
    OnlyAppend(s[..i], [s[i]], keep);
    OnlyNone([s[i]], keep);
    OnlyAppend(s[..i], s[i + 1..], keep);
  }

  /** The bricks left over are in the order in which they came. */
  lemma {:induction false} LeftKeepsOrder<X>(xs: seq<Item<X>>, c: int, keep: set<Item<X>>)
    requires From(xs, c).Some?
    requires forall x :: x in From(xs, c).value.0 ==> x !in keep
    requires forall x :: x in From(xs, c).value.1 ==> x in keep
    ensures From(xs, c).value.1 == Only(xs, keep)
    decreases |xs|
  {
    if c >= RING {
      OnlyAll(xs, keep);
    } else {
      var i := Pick(xs, c).value;
      var rest := From(Without(xs, i), xs[i].range.value.last + 1).value;
      assert From(xs, c).value.0 == [xs[i]] + rest.0;
      LeftKeepsOrder(Without(xs, i), xs[i].range.value.last + 1, keep);
      OnlyWithout(xs, i, keep);
    }
  }
}
