/**
  extras/rebalance.py on Brick objects: calc_sizes, normalize and get_score.
 */
module Rebalance {
  import opened Wrappers
  import opened Basics
  import opened Layout
  import opened Score
  import opened Normalize

  class Brick {
    var size: nat
    var currSize: int
    var goodSize: int
    var range: Option<Range>     // r_start and r_end; __init__ leaves both unset

    constructor ()
      ensures size == 0 && currSize == 0 && goodSize == 0 && range.None?
    {
      size, currSize, goodSize, range := 0, 0, 0, None;
    }

    /** A brick whose range is not backwards is consistent afterwards. */
    method SetRange(first: int, last: int)
      modifies this`range, this`currSize
      ensures range == Some(Range(first, last)) && currSize == last - first + 1
      ensures 0 <= first <= last < RING ==> Consistent()
    {
      range := Some(Range(first, last));
      currSize := last - first + 1;
    }

    /** curr_size is nonzero exactly when the brick has a range. */
    predicate Consistent()
      reads this
    {
      (currSize == 0 <==> range.None?)
      && (range.Some? ==> 0 <= range.value.first <= range.value.last < RING)
    }

    function Seen(): Share
      reads this
    {
      Share(goodSize, range)
    }
  }

  function Sizes(bs: seq<Brick>): (r: seq<nat>)
    reads bs
    ensures |r| == |bs| && forall i :: 0 <= i < |bs| ==> r[i] == bs[i].size
  {
    seq(|bs|, i requires 0 <= i < |bs| reads bs => bs[i].size)
  }

  function GoodsOf(bs: seq<Brick>): (r: seq<int>)
    reads bs
    ensures |r| == |bs| && forall i :: 0 <= i < |bs| ==> r[i] == bs[i].goodSize
  {
    seq(|bs|, i requires 0 <= i < |bs| reads bs => bs[i].goodSize)
  }

  function SeenAll(bs: seq<Brick>): (r: seq<Share>)
    reads bs
    ensures |r| == |bs| && forall i :: 0 <= i < |bs| ==> r[i] == bs[i].Seen()
  {
    seq(|bs|, i requires 0 <= i < |bs| reads bs => bs[i].Seen())
  }

  function Items(bs: seq<Brick>): (r: seq<Item<Brick>>)
    reads bs
    ensures |r| == |bs| && forall i :: 0 <= i < |bs| ==> r[i] == Item(bs[i], bs[i].range)
  {
    seq(|bs|, i requires 0 <= i < |bs| reads bs => Item(bs[i], bs[i].range))
  }

  predicate AllConsistent(bs: seq<Brick>)
    reads bs
  {
    forall i :: 0 <= i < |bs| ==> bs[i].Consistent()
  }

  // ---- collecting sizes and ranges ---------------------------------------------------

  /** A brick as its constructor leaves it, but for its size. */
  ghost predicate Blank(bs: seq<Brick>)
    reads bs
  {
    forall i :: 0 <= i < |bs| ==> bs[i].range.None? && bs[i].currSize == 0
  }

  predicate AllPositive(sizes: seq<int>) {
    forall i :: 0 <= i < |sizes| ==> sizes[i] > 0
  }

  /** The loop over the sizes, which stops the program at one that is not positive. */
  method CollectSizes(bricks: seq<Brick>, sizes: seq<int>) returns (ok: bool, total: nat)
    requires NoDup(bricks) && |sizes| == |bricks|
    modifies bricks`size
    ensures ok <==> AllPositive(sizes)
    ensures ok ==> Sizes(bricks) == sizes && total == Sum(sizes)
    ensures ok && bricks != [] ==> total > 0
  {
    total := 0;
    assert sizes[..0] == [];
    for i := 0 to |bricks|
      invariant forall j :: 0 <= j < i ==> bricks[j].size == sizes[j] > 0
      invariant total == Sum(sizes[..i]) && (i > 0 ==> total > 0)
    {
      if sizes[i] <= 0 {
        return false, 0;
      }
      bricks[i].size := sizes[i];
      SumSnoc(sizes, i);
      total := total + sizes[i];
    }
    assert sizes[..|bricks|] == sizes && Sizes(bricks) == sizes;
    return true, total;
  }

  /** A range as getfattr prints it: two 32-bit numbers. */
  predicate Readable(found: seq<Option<Range>>) {
    forall i :: 0 <= i < |found| && found[i].Some? ==>
      0 <= found[i].value.first < RING && 0 <= found[i].value.last < RING
  }

  predicate NoneBackwards(found: seq<Option<Range>>) {
    forall i :: 0 <= i < |found| && found[i].Some? ==> found[i].value.first <= found[i].value.last
  }

  /** The loop over the ranges, which stops the program at one that is backwards. */
  method CollectRanges(bricks: seq<Brick>, found: seq<Option<Range>>) returns (ok: bool)
    requires NoDup(bricks) && |found| == |bricks| && Blank(bricks) && Readable(found)
    modifies bricks`range, bricks`currSize
    ensures ok <==> NoneBackwards(found)
    ensures ok ==> AllConsistent(bricks) && forall i :: 0 <= i < |bricks| ==> bricks[i].range == found[i]
  {
    for i := 0 to |bricks|
      invariant NoneBackwards(found[..i])
      invariant forall j :: 0 <= j < i ==> bricks[j].range == found[j] && bricks[j].Consistent()
      invariant forall j :: i <= j < |bricks| ==> bricks[j].range.None? && bricks[j].currSize == 0
    {
      assert found[..i + 1] == found[..i] + [found[i]];
      if found[i].Some? {
        var (first, last) := (found[i].value.first, found[i].value.last);
        if first > last {
          return false;
        }
        bricks[i].SetRange(first, last);
      }
    }
    assert found[..|bricks|] == found;
    return true;
  }

  // ---- calc_sizes --------------------------------------------------------------------

  lemma SumSnoc(s: seq<int>, i: nat)
    requires i < |s|
    ensures Sum(s[..i + 1]) == Sum(s[..i]) + s[i]
  {
    assert s[..i + 1] == s[..i] + [s[i]];
    SumAppend(s[..i], [s[i]]);
  }

  /** The first loop of calc_sizes. */
  method FloorSizes(bricks: seq<Brick>, total: nat, ghost floors: seq<int>) returns (leftover: int)
    requires NoDup(bricks) && total != 0 && floors == Floors(Sizes(bricks), total)
    modifies bricks`goodSize
    ensures GoodsOf(bricks) == floors && leftover == RING - Sum(floors)
  {
    leftover := RING;
    ghost var sizes := Sizes(bricks);
    for i := 0 to |bricks|
      invariant forall j :: 0 <= j < i ==> bricks[j].goodSize == floors[j]
      invariant leftover == RING - Sum(floors[..i]) && Sizes(bricks) == sizes
    {
      var b := bricks[i];
      FloorsAt(sizes, total, i);
      if b.size != 0 {
        b.goodSize := b.size * RING / total;
        leftover := leftover - b.goodSize;
      } else {
        b.goodSize := 0;
      }
      SumSnoc(floors, i);
    }
    assert floors[..|bricks|] == floors;
  }

  /** The second part: the leftover goes to the first brick with a share, or to the first. */
  method AddLeftover(bricks: seq<Brick>, leftover: int, ghost f: seq<int>)
    requires bricks != [] && NoDup(bricks) && GoodsOf(bricks) == f
    modifies bricks`goodSize
    ensures GoodsOf(bricks) == f[Lucky(f) := f[Lucky(f)] + leftover]
  {
    if leftover == 0 {
      return;
    }
    var i := 0;
    while i < |bricks| && bricks[i].goodSize == 0
      invariant 0 <= i <= |bricks|
      invariant forall j :: 0 <= j < i ==> f[j] == 0
    {
      i := i + 1;
    }
    if i == |bricks| {
      i := 0;
    }
    LuckyIs(f, i);
    bricks[i].goodSize := bricks[i].goodSize + leftover;
    assert GoodsOf(bricks) == f[i := f[i] + leftover];
  }

  lemma GoodSizesAre(sizes: seq<nat>, total: nat, f: seq<int>, leftover: int)
    requires total != 0 && sizes != [] && f == Floors(sizes, total) && leftover == RING - Sum(f)
    ensures f[Lucky(f) := f[Lucky(f)] + leftover] == GoodSizes(sizes, total)
  {
  }

  /** calc_sizes(bricks, total). */
  method CalcSizes(bricks: seq<Brick>, total: nat)
    requires bricks != [] && NoDup(bricks) && total != 0
    modifies bricks`goodSize
    ensures GoodsOf(bricks) == GoodSizes(old(Sizes(bricks)), total)
  {
    ghost var sizes := Sizes(bricks);
    ghost var floors := Floors(sizes, total);
    var leftover := FloorSizes(bricks, total, floors);
    AddLeftover(bricks, leftover, floors);
    GoodSizesAre(sizes, total, floors, leftover);
  }

  // ---- normalize ---------------------------------------------------------------------

  /** The result of normalize when `done` has been picked already. */
  function After(done: seq<Item<Brick>>, r: Option<(seq<Item<Brick>>, seq<Item<Brick>>)>)
    : Option<(seq<Item<Brick>>, seq<Item<Brick>>)>
  {
    match r
    case None => None
    case Some((picked, left)) => Some((done + picked, left))
  }

  lemma AfterNothing(r: Option<(seq<Item<Brick>>, seq<Item<Brick>>)>)
    ensures After([], r) == r
  {
    if r.Some? {
      assert [] + r.value.0 == r.value.0;
    }
  }

  lemma AfterOne(done: seq<Item<Brick>>, xs: seq<Item<Brick>>, c: int, i: nat)
    requires c < RING && Pick(xs, c) == Some(i)
    ensures After(done, From(xs, c))
      == After(done + [xs[i]], From(Normalize.Without(xs, i), xs[i].range.value.last + 1))
  {
    var r := From(Normalize.Without(xs, i), xs[i].range.value.last + 1);
    if r.Some? {
      assert done + ([xs[i]] + r.value.0) == done + [xs[i]] + r.value.0;
    }
  }

  /** Between two turns of the outer loop: `out` has been picked, `rest` is to be searched for
      `hash`, and the result will be `all`. */
  ghost predicate Sorting(all: Option<(seq<Item<Brick>>, seq<Item<Brick>>)>, out: seq<Brick>, rest: seq<Brick>,
                          hash: int)
    reads out, rest
  {
    all == After(Items(out), From(Items(rest), hash))
  }

  lemma StepItems(rest: seq<Brick>, out: seq<Brick>, i: nat)
    requires i < |rest|
    ensures Items(rest[..i] + rest[i + 1..]) == Normalize.Without(Items(rest), i)
    ensures Items(out + [rest[i]]) == Items(out) + [Items(rest)[i]]
  {
  }

  lemma SortingStep(all: Option<(seq<Item<Brick>>, seq<Item<Brick>>)>, out: seq<Brick>, rest: seq<Brick>, hash: int,
                    i: nat)
    requires Sorting(all, out, rest, hash) && hash < RING && Pick(Items(rest), hash) == Some(i)
    ensures Sorting(all, out + [rest[i]], rest[..i] + rest[i + 1..], rest[i].range.value.last + 1)
  {
    AfterOne(Items(out), Items(rest), hash, i);
    StepItems(rest, out, i);
  }

  lemma MovedOver(out: seq<Brick>, rest: seq<Brick>, i: nat)
    requires i < |rest|
    ensures multiset(out + [rest[i]]) + multiset(rest[..i] + rest[i + 1..]) == multiset(out) + multiset(rest)
  {
    MultisetWithout(rest, i);
    assert rest[..i] + rest[i + 1..] == Normalize.Without(rest, i);
  }

  lemma SortingEnds(all: Option<(seq<Item<Brick>>, seq<Item<Brick>>)>, out: seq<Brick>, rest: seq<Brick>, hash: int)
    requires Sorting(all, out, rest, hash) && hash >= RING
    ensures all == Some((Items((out + rest)[..|out|]), Items((out + rest)[|out|..])))
  {
    assert (out + rest)[..|out|] == out && (out + rest)[|out|..] == rest;
    assert Items(out) + [] == Items(out);
  }

  /** One turn of the outer loop: the brick whose range starts at `hash` moves from `rest` to the
      end of `out`. */
  method TakeNext(out: seq<Brick>, rest: seq<Brick>, hash: int, ghost all: Option<(seq<Item<Brick>>, seq<Item<Brick>>)>)
    returns (found: bool, out1: seq<Brick>, rest1: seq<Brick>, hash1: int)
    requires Sorting(all, out, rest, hash) && hash < RING
    ensures !found ==> all.None?
    ensures found ==> Sorting(all, out1, rest1, hash1) && |out1| == |out| + 1 && |rest1| < |rest|
    ensures found ==> multiset(out1) + multiset(rest1) == multiset(out) + multiset(rest)
  {
    var i;
    found, i := Scan(rest, hash);
    if found {
      SortingStep(all, out, rest, hash, i);
      MovedOver(out, rest, i);
      out1 := out + [rest[i]];
      rest1 := rest[..i] + rest[i + 1..];
      hash1 := rest[i].range.value.last + 1;
    } else {
      out1, rest1, hash1 := out, rest, hash;
    }
  }

  /** normalize(in_bricks): stops the program when the search for the next hash finds no range that
      starts there, or meets a brick without range first; otherwise it returns the reordered list and
      the number of bricks whose ranges now tile the ring. */
  method NormalizeBricks(inBricks: seq<Brick>) returns (ok: bool, out: seq<Brick>, used: nat)
    ensures ok <==> From(Items(inBricks), 0).Some?
    ensures ok ==> multiset(out) == multiset(inBricks)
    ensures ok ==> used <= |out| && From(Items(inBricks), 0) == Some((Items(out[..used]), Items(out[used..])))
  {
    AfterNothing(From(Items(inBricks), 0));
    ok, out, used := SortBricks(inBricks, From(Items(inBricks), 0));
  }

  method SortBricks(inBricks: seq<Brick>, ghost all: Option<(seq<Item<Brick>>, seq<Item<Brick>>)>)
    returns (ok: bool, out: seq<Brick>, used: nat)
    requires Sorting(all, [], inBricks, 0)
    ensures ok <==> all.Some?
    ensures ok ==> multiset(out) == multiset(inBricks)
    ensures ok ==> used <= |out| && all == Some((Items(out[..used]), Items(out[used..])))
  {
    var rest := inBricks;
    out, used, ok := [], 0, true;
    var hash := 0;
    while hash < RING
      invariant used == |out| && Sorting(all, out, rest, hash)
      invariant multiset(out) + multiset(rest) == multiset(inBricks)
      decreases |rest|
    {
      ok, out, rest, hash := TakeNext(out, rest, hash, all);
      if !ok {
        return;
      }
      used := used + 1;
    }
    SortingEnds(all, out, rest, hash);
    out := out + rest;
  }

  /** The inner loop: the first brick whose range starts at `hash`; reading the range of a brick
      that has none stops the program. */
  method Scan(bricks: seq<Brick>, hash: int) returns (found: bool, i: nat)
    ensures found <==> Pick(Items(bricks), hash).Some?
    ensures found ==> Pick(Items(bricks), hash) == Some(i)
  {
    i := 0;
    ghost var items := Items(bricks);
    ghost var goal := Pick(items, hash);
    assert items[0..] == items;
    while i < |bricks|
      invariant 0 <= i <= |bricks| && Items(bricks) == items
      invariant goal == Later(Pick(items[i..], hash), i)
    {
      assert items[i..][0] == items[i] && items[i..][1..] == items[i + 1..];
      if bricks[i].range.None? {
        return false, 0;
      }
      if bricks[i].range.value.first == hash {
        return true, i;
      }
      i := i + 1;
    }
    return false, 0;
  }

  function Later(r: Option<nat>, i: nat): Option<nat> {
    match r
    case None => None
    case Some(k) => Some(k + i)
  }

  // ---- get_score ---------------------------------------------------------------------

  lemma {:induction false} ScoreSnoc(bs: seq<Share>, i: nat, c: int)
    requires i < |bs|
    ensures Score.Score(bs[..i + 1], c) == Score.Score(bs[..i], c)
      + (if bs[i].present.Some?
         then Overlap(Range(c + Sum(Goods(bs[..i])), c + Sum(Goods(bs[..i])) + bs[i].good - 1), bs[i].present.value)
         else 0)
    ensures Sum(Goods(bs[..i + 1])) == Sum(Goods(bs[..i])) + bs[i].good
    decreases i
  {
    if i == 0 {
      assert bs[..1][1..] == [] && Goods(bs[..1])[1..] == [];
      assert bs[..0] == [];
    } else {
      var t := bs[1..];
      ScoreSnoc(t, i - 1, c + bs[0].good);
      assert bs[..i + 1][1..] == t[..i] && bs[..i][1..] == t[..i - 1];
      assert Goods(bs[..i + 1])[1..] == Goods(t[..i]) && Goods(bs[..i])[1..] == Goods(t[..i - 1]);
    }
  }

  /** get_score(bricks). */
  method GetScore(bricks: seq<Brick>) returns (score: int)
    requires AllConsistent(bricks)
    ensures score == Score.Score(SeenAll(bricks), 0)
  {
    score := 0;
    var hash := 0;
    ghost var bs := SeenAll(bricks);
    for i := 0 to |bricks|
      invariant score == Score.Score(bs[..i], 0) && hash == Sum(Goods(bs[..i]))
    {
      var b := bricks[i];
      assert b.Consistent() && bs[i] == b.Seen();
      ScoreSnoc(bs, i, 0);
      if b.currSize == 0 {
        hash := hash + b.goodSize;
        continue;
      }
      var newStart := hash;
      hash := hash + b.goodSize;
      var newEnd := hash - 1;
      var maxStart := if newStart > b.range.value.first then newStart else b.range.value.first;
      var minEnd := if newEnd < b.range.value.last then newEnd else b.range.value.last;
      if maxStart <= minEnd {
        score := score + (minEnd - maxStart + 1);
      }
    }
    assert bs[..|bricks|] == bs;
  }
}
