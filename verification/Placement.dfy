/**
  extras/rebalance.py, its main part on Brick objects: greedy placement of the bricks that
  normalize left over, and the final range assignment.
 */
module Placement {
  import opened Wrappers
  import opened Basics
  import opened Layout
  import opened Normalize
  import opened Rebalance
  import opened Greedy

  // ---- greedy placement --------------------------------------------------------------

  function Slots(bs: seq<Brick>): (r: seq<Slot<Brick>>)
    reads bs
    ensures |r| == |bs| && forall i :: 0 <= i < |bs| ==> r[i] == Slot(bs[i], bs[i].Seen())
  {
    seq(|bs|, i requires 0 <= i < |bs| reads bs => Slot(bs[i], bs[i].Seen()))
  }

  lemma SlotsMoveTo(bricks: seq<Brick>, used: nat, i: nat)
    requires i <= used < |bricks|
    ensures Slots(MoveTo(bricks, used, i)) == MoveTo(Slots(bricks), used, i)
  {
  }

  lemma SlotsShares(bricks: seq<Brick>)
    ensures Shares(Slots(bricks)) == SeenAll(bricks)
  {
  }

  lemma ConsistentPermuted(a: seq<Brick>, b: seq<Brick>)
    requires AllConsistent(a) && multiset(a) == multiset(b)
    ensures AllConsistent(b)
  {
    forall i | 0 <= i < |b| ensures b[i].Consistent() {
      assert b[i] in multiset(a);
    }
  }

  method Insert(bricks: seq<Brick>, used: nat, i: nat) returns (out: seq<Brick>)
    requires i <= used < |bricks|
    ensures out == MoveTo(bricks, used, i)
  {
    out := bricks[..used] + bricks[used + 1..];
    out := out[..i] + [bricks[used]] + out[i..];
  }

  method TryPlace(bricks: seq<Brick>, used: nat, i: nat) returns (score: int)
    requires AllConsistent(bricks) && i <= used < |bricks|
    ensures score == PlaceScore(Slots(bricks), used, i)
  {
    var candidate := Insert(bricks, used, i);
    MoveMultiset(bricks, used, i);
    ConsistentPermuted(bricks, candidate);
    score := GetScore(candidate);
    SlotsMoveTo(bricks, used, i);
    SlotsShares(candidate);
  }

  /** The inner loop: the best place for brick `used`. */
  method FindPlace(bricks: seq<Brick>, used: nat) returns (place: nat)
    requires AllConsistent(bricks) && used < |bricks|
    ensures place == Place(Slots(bricks), used)
  {
    ghost var scores := PlaceScores(Slots(bricks), used);
    place := used;
    var best := TryPlace(bricks, used, used);
    for i := 0 to used
      invariant place <= used && (place == used || place < i)
      invariant best == scores[place]
      invariant place < used ==> scores[used] < best && forall j :: 0 <= j < place ==> scores[j] < best
      invariant forall j :: 0 <= j < i ==> scores[j] <= best
    {
      var score := TryPlace(bricks, used, i);
      assert score == scores[i];
      if score > best {
        place, best := i, score;
      }
    }
    OneBest(scores, place);
  }

  lemma TurnIsBest(bricks: seq<Brick>, used: nat)
    requires used < |bricks|
    ensures BestTurn(Slots(bricks), used, Slots(MoveTo(bricks, used, Place(Slots(bricks), used))))
  {
    StepIsBestMove(Slots(bricks), used);
    SlotsMoveTo(bricks, used, Place(Slots(bricks), used));
  }

  /** One turn of the greedy loop. */
  method PlaceOne(bricks: seq<Brick>, used: nat) returns (out: seq<Brick>)
    requires AllConsistent(bricks) && used < |bricks|
    ensures out == MoveTo(bricks, used, Place(Slots(bricks), used)) && BestTurn(Slots(bricks), used, Slots(out))
  {
    out := TakePlace(bricks, used);
    TurnIsBest(bricks, used);
  }

  method TakePlace(bricks: seq<Brick>, used: nat) returns (out: seq<Brick>)
    requires AllConsistent(bricks) && used < |bricks|
    ensures out == MoveTo(bricks, used, Place(Slots(bricks), used))
  {
    var place := FindPlace(bricks, used);
    if place != used {
      out := Insert(bricks, used, place);
    } else {
      out := bricks;
      assert MoveTo(bricks, used, used) == bricks;
    }
  }

  /** `used` bricks of a rearrangement of `start` are in place, and the loop is heading for `goal`. */
  ghost predicate Placing(start: seq<Brick>, bricks: seq<Brick>, used: nat, goal: seq<Slot<Brick>>)
    reads bricks
  {
    && used <= |bricks| && AllConsistent(bricks)
    && multiset(bricks) == multiset(start) && Placed(Slots(bricks), used) == goal
  }

  lemma PlacingStep(start: seq<Brick>, bricks: seq<Brick>, used: nat, goal: seq<Slot<Brick>>)
    requires Placing(start, bricks, used, goal) && used < |bricks|
    ensures Placing(start, MoveTo(bricks, used, Place(Slots(bricks), used)), used + 1, goal)
  {
    var place := Place(Slots(bricks), used);
    SlotsMoveTo(bricks, used, place);
    MoveMultiset(bricks, used, place);
    ConsistentPermuted(bricks, MoveTo(bricks, used, place));
  }

  method PlaceRest(start: seq<Brick>, placed: nat) returns (bricks: seq<Brick>)
    requires AllConsistent(start) && placed <= |start|
    ensures Slots(bricks) == Placed(Slots(start), placed) && multiset(bricks) == multiset(start)
  {
    bricks := start;
    var used := placed;
    ghost var first := Slots(start);
    ghost var goal := Placed(first, placed);
    while used < |bricks|
      invariant Slots(start) == first
      invariant used >= 0 && Placing(start, bricks, used, goal)
      decreases |start| - used
    {
      var next := PlaceOne(bricks, used);
      PlacingStep(start, bricks, used, goal);
      assert |multiset(bricks)| == |multiset(start)|;
      bricks := next;
      used := used + 1;
    }
  }

  /** The greedy loop, with the lists it goes through. */
  method PlaceAll(start: seq<Brick>, placed: nat)
    returns (bricks: seq<Brick>, ghost lists: seq<seq<Slot<Brick>>>)
    requires AllConsistent(start) && placed <= |start|
    ensures Slots(bricks) == Placed(Slots(start), placed) && multiset(bricks) == multiset(start)
    ensures GreedyRun(placed, lists) && lists[0] == Slots(start) && lists[|lists| - 1] == Slots(bricks)
  {
    bricks := PlaceRest(start, placed);
    lists := PlacedIsGreedy(Slots(start), placed);
  }

  // ---- final ranges ------------------------------------------------------------------

  /** The range of the `i`-th brick when the good sizes are laid out in this order. */
  function FinalRange(goods: seq<int>, i: nat): Range
    requires i < |goods|
  {
    Range(StartOf(goods, 0, i), StartOf(goods, 0, i + 1) - 1)
  }

  method Finalize(bricks: seq<Brick>)
    requires NoDup(bricks)
    modifies bricks`range
    ensures forall i :: 0 <= i < |bricks| ==> bricks[i].range == Some(FinalRange(GoodsOf(bricks), i))
  {
    var hash := 0;
    ghost var goods := GoodsOf(bricks);
    for i := 0 to |bricks|
      invariant hash == StartOf(goods, 0, i) && GoodsOf(bricks) == goods
      invariant forall j :: 0 <= j < i ==> bricks[j].range == Some(FinalRange(goods, j))
    {
      var b := bricks[i];
      SumSnoc(goods, i);
      assert b.goodSize == goods[i];
      var first := hash;
      hash := hash + b.goodSize;
      b.range := Some(Range(first, hash - 1));
    }
  }

  ghost predicate HeldBy(bricks: seq<Brick>, h: int, i: nat)
    requires i < |bricks|
    reads bricks
  {
    bricks[i].range.Some? && bricks[i].range.value.Has(h)
  }

  ghost predicate OneHolder(bricks: seq<Brick>, h: int)
    reads bricks
  {
    && (exists i :: 0 <= i < |bricks| && HeldBy(bricks, h, i))
    && (forall i, j ::
          0 <= i < |bricks| && 0 <= j < |bricks| && HeldBy(bricks, h, i) && HeldBy(bricks, h, j) ==> i == j)
  }

  /** Every 32-bit hash is in the range of exactly one brick. */
  ghost predicate SplitsRing(bricks: seq<Brick>)
    reads bricks
  {
    forall h :: 0 <= h < RING ==> OneHolder(bricks, h)
  }

  lemma FinalRangesSplitRing(bricks: seq<Brick>)
    requires forall i :: 0 <= i < |bricks| ==> bricks[i].range == Some(FinalRange(GoodsOf(bricks), i))
    requires NonNegative(GoodsOf(bricks)) && Sum(GoodsOf(bricks)) == RING
    ensures SplitsRing(bricks)
  {
    var goods := GoodsOf(bricks);
    forall h | 0 <= h < RING ensures OneHolder(bricks, h) {
      ExactlyOneOwner(goods, 0, h);
      assert forall i :: 0 <= i < |bricks| ==> HeldBy(bricks, h, i) == Owns(goods, 0, i, h);
      var i :| 0 <= i < |bricks| && Owns(goods, 0, i, h);
      assert HeldBy(bricks, h, i);
    }
  }

  // ---- the whole calculation ---------------------------------------------------------

  lemma {:induction false} GoodsPermuted(a: seq<Brick>, b: seq<Brick>)
    requires multiset(a) == multiset(b)
    ensures Sum(GoodsOf(a)) == Sum(GoodsOf(b))
    decreases |a|
  {
    assert |a| == |multiset(a)| == |multiset(b)| == |b|;
    if a != [] {
      var k := Remaining(a, b);
      GoodsPermuted(Normalize.Without(a, 0), Normalize.Without(b, k));
      GoodsWithout(b, k);
      GoodsWithout(a, 0);
    }
  }

  lemma Remaining(a: seq<Brick>, b: seq<Brick>) returns (k: nat)
    requires multiset(a) == multiset(b) && a != []
    ensures k < |b| && b[k] == a[0] && multiset(Normalize.Without(a, 0)) == multiset(Normalize.Without(b, k))
  {
    assert a[0] in multiset(b);
    k :| 0 <= k < |b| && b[k] == a[0];
    MultisetWithout(a, 0);
    MultisetWithout(b, k);
    var x := multiset{a[0]};
    assert multiset(Normalize.Without(a, 0)) == multiset(a) - x;
    assert multiset(Normalize.Without(b, k)) == multiset(b) - x;
  }

  lemma SumWithout(s: seq<int>, k: nat)
    requires k < |s|
    ensures Sum(s) == s[k] + Sum(Normalize.Without(s, k))
  {
    var a, x, b := s[..k], [s[k]], s[k + 1..];
    assert s == a + (x + b) && Normalize.Without(s, k) == a + b;
    SumAppend(a, x + b);
    SumAppend(x, b);
    SumAppend(a, b);
    assert Sum(x) == s[k];
  }

  lemma GoodsWithout(b: seq<Brick>, k: nat)
    requires k < |b|
    ensures Sum(GoodsOf(b)) == b[k].goodSize + Sum(GoodsOf(Normalize.Without(b, k)))
  {
    SumWithout(GoodsOf(b), k);
    assert GoodsOf(Normalize.Without(b, k)) == Normalize.Without(GoodsOf(b), k);
  }

  lemma CountOnce(s: seq<Brick>, x: Brick)
    requires NoDup(s)
    ensures multiset(s)[x] <= 1
  {
    if x in s {
      var k :| 0 <= k < |s| && s[k] == x;
      MultisetWithout(s, k);
      forall i | 0 <= i < |Normalize.Without(s, k)| ensures Normalize.Without(s, k)[i] != x {
        WithoutMember(s, k, i);
      }
    }
  }

  lemma DistinctPermuted(a: seq<Brick>, b: seq<Brick>)
    requires NoDup(a) && multiset(a) == multiset(b)
    ensures NoDup(b)
  {
    forall i, j | 0 <= i < j < |b| ensures b[i] != b[j] {
      CountOnce(a, b[i]);
      MultisetWithout(b, i);
      WithoutMember(b, i, j - 1);
      assert b[j] in multiset(Normalize.Without(b, i));
    }
  }

  lemma GoodsPermutedNonNegative(a: seq<Brick>, b: seq<Brick>)
    requires NonNegative(GoodsOf(a)) && multiset(a) == multiset(b)
    ensures NonNegative(GoodsOf(b))
  {
    forall i | 0 <= i < |b| ensures GoodsOf(b)[i] >= 0 {
      assert b[i] in multiset(a);
      var k :| 0 <= k < |a| && a[k] == b[i];
      assert GoodsOf(a)[k] >= 0;
    }
  }

  /** Everything the end of the program needs about a rearrangement of the bricks. */
  lemma Rearranged(a: seq<Brick>, b: seq<Brick>)
    requires NoDup(a) && multiset(a) == multiset(b) && NonNegative(GoodsOf(a))
    ensures NoDup(b) && NonNegative(GoodsOf(b)) && Sum(GoodsOf(b)) == Sum(GoodsOf(a))
  {
    DistinctPermuted(a, b);
    GoodsPermuted(a, b);
    GoodsPermutedNonNegative(a, b);
  }

  function ItemsOf(slots: seq<Slot<Brick>>): (r: seq<Item<Brick>>)
    ensures |r| == |slots| && forall i :: 0 <= i < |slots| ==> r[i] == Item(slots[i].brick, slots[i].share.present)
  {
    seq(|slots|, i requires 0 <= i < |slots| => Item(slots[i].brick, slots[i].share.present))
  }

  /** `out` is the order that normalize and then the greedy loop make of `items`: `slots` are the
      bricks as normalize leaves them, the first `used` of them in place. */
  ghost predicate Chosen(items: seq<Item<Brick>>, slots: seq<Slot<Brick>>, used: nat, out: seq<Brick>) {
    && used <= |slots| && From(items, 0) == Some((ItemsOf(slots[..used]), ItemsOf(slots[used..])))
    && |Placed(slots, used)| == |out| && forall i :: 0 <= i < |out| ==> Placed(slots, used)[i].brick == out[i]
  }

  lemma ItemsOfSlots(bs: seq<Brick>)
    ensures ItemsOf(Slots(bs)) == Items(bs)
  {
  }

  lemma IsChosen(items: seq<Item<Brick>>, sorted: seq<Brick>, used: nat, out: seq<Brick>)
    requires used <= |sorted| && From(items, 0) == Some((Items(sorted[..used]), Items(sorted[used..])))
    requires Slots(out) == Placed(Slots(sorted), used)
    ensures Chosen(items, Slots(sorted), used, out)
  {
    ItemsOfSlots(sorted[..used]);
    ItemsOfSlots(sorted[used..]);
    assert Slots(sorted)[..used] == Slots(sorted[..used]) && Slots(sorted)[used..] == Slots(sorted[used..]);
  }

  /** The shares the greedy loop sees are the bricks' good sizes. */
  ghost predicate GoodShares(slots: seq<Slot<Brick>>)
    reads set i | 0 <= i < |slots| :: slots[i].brick
  {
    forall i :: 0 <= i < |slots| ==> slots[i].share.good == slots[i].brick.goodSize
  }

  /** normalize and the greedy loop. */
  method Order(bricks: seq<Brick>)
    returns (ok: bool, out: seq<Brick>, ghost slots: seq<Slot<Brick>>, ghost used: nat)
    requires AllConsistent(bricks)
    ensures ok <==> From(Items(bricks), 0).Some?
    ensures ok ==> multiset(out) == multiset(bricks) && Chosen(Items(bricks), slots, used, out) && GoodShares(slots)
  {
    ghost var items := Items(bricks);
    var s, n;
    ok, s, n := NormalizeBricks(bricks);
    assert Items(bricks) == items;
    slots, used, out := [], 0, [];
    if ok {
      ConsistentPermuted(bricks, s);
      slots, used := Slots(s), n;
      ghost var placed, left := Items(s[..n]), Items(s[n..]);
      ghost var lists;
      out, lists := PlaceAll(s, n);
      assert Slots(s) == slots && Items(bricks) == items && Items(s[..n]) == placed && Items(s[n..]) == left;
      IsChosen(items, s, n, out);
    }
  }

  /** The program from the collected sizes and ranges to the new ranges. It stops only when normalize
      does; otherwise the same bricks, in the order that normalize and the greedy loop choose, split
      the ring by their shares. */
  method Relayout(bricks: seq<Brick>, total: nat)
    returns (ok: bool, out: seq<Brick>, ghost slots: seq<Slot<Brick>>, ghost used: nat)
    requires bricks != [] && NoDup(bricks) && AllConsistent(bricks)
    requires total != 0 && Sum(Sizes(bricks)) == total
    modifies bricks`goodSize, bricks`range
    ensures ok <==> old(From(Items(bricks), 0)).Some?
    ensures GoodsOf(bricks) == GoodSizes(old(Sizes(bricks)), total)
    ensures ok ==> multiset(out) == multiset(bricks)
    ensures ok ==> Chosen(old(Items(bricks)), slots, used, out) && GoodShares(slots)
    ensures ok ==> SplitsRing(out) && forall i :: 0 <= i < |out| ==> out[i].range == Some(FinalRange(GoodsOf(out), i))
  {
    ShareOut(bricks, total);
    ok, out, slots, used := Order(bricks);
    if ok {
      Rearranged(bricks, out);
      SetRanges(bricks, out);
    }
  }

  lemma GoodSizesFit(sizes: seq<nat>, total: nat, goods: seq<int>)
    requires total != 0 && sizes != [] && Sum(sizes) == total && goods == GoodSizes(sizes, total)
    ensures NonNegative(goods) && Sum(goods) == RING
  {
    GoodSizesFillRing(sizes, total);
  }

  twostate lemma RangesKept(bricks: seq<Brick>)
    requires old(AllConsistent(bricks)) && unchanged(bricks`range) && unchanged(bricks`currSize)
    ensures Items(bricks) == old(Items(bricks)) && AllConsistent(bricks)
  {
    forall i | 0 <= i < |bricks| ensures bricks[i].Consistent() {
      assert old(bricks[i].Consistent());
    }
  }

  /** calc_sizes changes no range. */
  method CalcSizesOnly(bricks: seq<Brick>, total: nat, ghost items: seq<Item<Brick>>, ghost goods: seq<int>)
    requires bricks != [] && NoDup(bricks) && AllConsistent(bricks) && total != 0
    requires items == Items(bricks) && goods == GoodSizes(Sizes(bricks), total)
    modifies bricks`goodSize
    ensures GoodsOf(bricks) == goods && Items(bricks) == items && AllConsistent(bricks)
  {
    CalcSizes(bricks, total);
    RangesKept(bricks);
  }

  method ShareOut(bricks: seq<Brick>, total: nat)
    requires bricks != [] && NoDup(bricks) && AllConsistent(bricks)
    requires total != 0 && Sum(Sizes(bricks)) == total
    modifies bricks`goodSize
    ensures GoodsOf(bricks) == GoodSizes(old(Sizes(bricks)), total) && Items(bricks) == old(Items(bricks))
    ensures AllConsistent(bricks) && NonNegative(GoodsOf(bricks)) && Sum(GoodsOf(bricks)) == RING
  {
    ghost var goods := GoodSizes(Sizes(bricks), total);
    GoodSizesFit(Sizes(bricks), total, goods);
    CalcSizesOnly(bricks, total, Items(bricks), goods);
  }

  /** The last loop, for a rearrangement of `bricks`. */
  method SetRanges(bricks: seq<Brick>, out: seq<Brick>)
    requires NoDup(out) && multiset(out) == multiset(bricks)
    requires NonNegative(GoodsOf(out)) && Sum(GoodsOf(out)) == RING
    modifies bricks`range
    ensures GoodsOf(bricks) == old(GoodsOf(bricks)) && SplitsRing(out)
    ensures forall i :: 0 <= i < |out| ==> out[i].range == Some(FinalRange(GoodsOf(out), i))
  {
    forall i | 0 <= i < |out| ensures out[i] in bricks {
      assert out[i] in multiset(bricks);
    }
    ghost var goods := GoodsOf(out);
    Finalize(out);
    assert GoodsOf(out) == goods;
    FinalRangesSplitRing(out);
  }

  ghost function FoundItems(bricks: seq<Brick>, found: seq<Option<Range>>): (r: seq<Item<Brick>>)
    requires |found| == |bricks|
    ensures |r| == |bricks| && forall i :: 0 <= i < |r| ==> r[i] == Item(bricks[i], found[i])
  {
    seq(|bricks|, i requires 0 <= i < |bricks| => Item(bricks[i], found[i]))
  }

  /** The program comes to an end. */
  ghost predicate Ends(items: seq<Item<Brick>>, sizes: seq<int>, found: seq<Option<Range>>) {
    AllPositive(sizes) && NoneBackwards(found) && From(items, 0).Some?
  }

  /** When the ranges that were found partition the ring, the program comes to an end if and only if the
      sizes are positive and the bricks that have a range come first. */
  lemma EndsWhenLaidOutFirst(bricks: seq<Brick>, sizes: seq<int>, found: seq<Option<Range>>)
    requires |found| == |bricks| && Partition(FoundItems(bricks, found), 0)
    ensures Ends(FoundItems(bricks, found), sizes, found)
      <==> AllPositive(sizes) && LaidOutFirst(FoundItems(bricks, found))
  {
    var items := FoundItems(bricks, found);
    forall i | 0 <= i < |found| && found[i].Some? ensures found[i].value.first <= found[i].value.last {
      assert items[i].range == found[i];
    }
    NormalizeReturnsIff(items);
  }

  /** Both collecting loops. */
  method Collect(bricks: seq<Brick>, sizes: seq<int>, found: seq<Option<Range>>) returns (ok: bool, total: nat)
    requires bricks != [] && NoDup(bricks) && Blank(bricks) && |sizes| == |found| == |bricks| && Readable(found)
    modifies bricks`size, bricks`range, bricks`currSize
    ensures ok <==> AllPositive(sizes) && NoneBackwards(found)
    ensures ok ==> total > 0 && Sizes(bricks) == sizes && total == Sum(sizes)
    ensures ok ==> AllConsistent(bricks) && Items(bricks) == FoundItems(bricks, found)
  {
    ok, total := CollectSizes(bricks, sizes);
    if ok {
      ok := CollectRanges(bricks, found);
      assert Sizes(bricks) == sizes;
    }
  }

  /** Everything after the bricks are mounted: the new ranges of the bricks split the ring. */
  method Calculate(bricks: seq<Brick>, sizes: seq<int>, found: seq<Option<Range>>) returns (ok: bool, out: seq<Brick>)
    requires bricks != [] && NoDup(bricks) && Blank(bricks) && |sizes| == |found| == |bricks| && Readable(found)
    modifies bricks
    ensures ok <==> Ends(FoundItems(bricks, found), sizes, found)
    ensures ok ==> multiset(out) == multiset(bricks) && SplitsRing(out)
  {
    out := [];
    var total;
    ok, total := Collect(bricks, sizes, found);
    if ok {
      ghost var slots, used;
      ok, out, slots, used := Relayout(bricks, total);
    }
  }
}
