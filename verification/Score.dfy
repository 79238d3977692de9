/**
  The score of a proposed layout (get_score) counts the hash values that stay with their
  brick, and greedy placement never lowers it.
 */
module Score {
  import opened Wrappers
  import opened Basics
  import opened Layout

  /** What get_score sees of a brick: its new share, and its present range if it has one. */
  datatype Share = Share(good: int, present: Option<Range>)

  function Goods(bs: seq<Share>): (r: seq<int>)
    ensures |r| == |bs| && forall i :: 0 <= i < |bs| ==> r[i] == bs[i].good
  {
    if bs == [] then [] else [bs[0].good] + Goods(bs[1..])
  }

  /** The hashes that two inclusive ranges have in common. */
  function Overlap(a: Range, b: Range): nat {
    Max(0, Min(a.last, b.last) - Max(a.first, b.first) + 1)
  }

  /** get_score, for bricks laid out from `c` on. */
  function Score(bs: seq<Share>, c: int): int {
    if bs == [] then 0
    else
      (if bs[0].present.Some? then Overlap(Range(c, c + bs[0].good - 1), bs[0].present.value) else 0)
      + Score(bs[1..], c + bs[0].good)
  }

  /** The brick that owns `h` in the proposed layout owns it at present, too. */
  predicate Kept(bs: seq<Share>, c: int, h: int) {
    exists i :: 0 <= i < |bs| && KeptBy(bs, c, i, h)
  }

  predicate KeptBy(bs: seq<Share>, c: int, i: nat, h: int)
    requires i < |bs|
  {
    Owns(Goods(bs), c, i, h) && bs[i].present.Some? && bs[i].present.value.Has(h)
  }

  function KeptUpTo(bs: seq<Share>, c: int, hi: int): set<int> {
    set h | c <= h < hi && Kept(bs, c, h)
  }

  function KeptHashes(bs: seq<Share>, c: int): set<int> {
    KeptUpTo(bs, c, c + Sum(Goods(bs)))
  }

  // ---- counting ----------------------------------------------------------------------

  predicate Between(lo: int, h: int, hi: int) {
    lo <= h < hi
  }

  function Interval(lo: int, hi: int): set<int> {
    set h | lo <= h < hi && Between(lo, h, hi)
  }

  lemma {:induction false} IntervalSize(lo: int, hi: int)
    requires lo <= hi
    ensures |Interval(lo, hi)| == hi - lo
    decreases hi - lo
  {
    if lo == hi {
      assert Interval(lo, hi) == {};
    } else {
      IntervalSize(lo, hi - 1);
      forall h | h in Interval(lo, hi - 1) + {hi - 1} ensures h in Interval(lo, hi) {
        assert Between(lo, h, hi);
      }
      forall h | h in Interval(lo, hi) ensures h in Interval(lo, hi - 1) + {hi - 1} {
        assert h != hi - 1 ==> Between(lo, h, hi - 1);
      }
      assert Interval(lo, hi) == Interval(lo, hi - 1) + {hi - 1};
    }
  }

  /** The kept hashes of the first brick. */
  function KeptByFirst(b: Share, c: int): set<int> {
    if b.present.None? then {}
    else
      var lo, hi := Max(c, b.present.value.first), Min(c + b.good - 1, b.present.value.last) + 1;
      if lo <= hi then Interval(lo, hi) else {}
  }

  lemma SumCons(x: int, s: seq<int>)
    ensures Sum([x] + s) == x + Sum(s)
  {
    assert ([x] + s)[1..] == s;
  }

  lemma OwnsShift(bs: seq<Share>, c: int, i: nat, h: int)
    requires 0 < i < |bs|
    ensures Owns(Goods(bs), c, i, h) == Owns(Goods(bs[1..]), c + bs[0].good, i - 1, h)
  {
    var g, g1 := Goods(bs), Goods(bs[1..]);
    assert g == [bs[0].good] + g1;
    assert g[..i] == [bs[0].good] + g1[..i - 1];
    assert g[..i + 1] == [bs[0].good] + g1[..i];
    SumCons(bs[0].good, g1[..i - 1]);
    SumCons(bs[0].good, g1[..i]);
  }

  lemma OwnsFirst(bs: seq<Share>, c: int, h: int)
    requires bs != []
    ensures Owns(Goods(bs), c, 0, h) == (c <= h < c + bs[0].good)
  {
    var g := Goods(bs);
    assert g[..0] == [] && g[..1] == [g[0]];
    assert g[..1][1..] == [];
  }

  lemma KeptSplit(bs: seq<Share>, c: int, h: int)
    requires bs != []
    ensures Kept(bs, c, h) <==>
      (c <= h < c + bs[0].good && bs[0].present.Some? && bs[0].present.value.Has(h))
      || Kept(bs[1..], c + bs[0].good, h)
  {
    var rest := bs[1..];
    OwnsFirst(bs, c, h);
    if Kept(bs, c, h) {
      var i :| 0 <= i < |bs| && KeptBy(bs, c, i, h);
      if i > 0 {
        OwnsShift(bs, c, i, h);
        assert rest[i - 1] == bs[i];
        assert KeptBy(rest, c + bs[0].good, i - 1, h);
      }
    }
    if Kept(rest, c + bs[0].good, h) {
      var i :| 0 <= i < |rest| && KeptBy(rest, c + bs[0].good, i, h);
      OwnsShift(bs, c, i + 1, h);
      assert rest[i] == bs[i + 1];
      assert KeptBy(bs, c, i + 1, h);
    }
    if c <= h < c + bs[0].good && bs[0].present.Some? && bs[0].present.value.Has(h) {
      assert KeptBy(bs, c, 0, h);
    }
  }

  lemma KeptByFirstMember(b: Share, c: int, h: int)
    ensures h in KeptByFirst(b, c) <==> c <= h < c + b.good && b.present.Some? && b.present.value.Has(h)
  {
    if b.present.Some? {
      var lo, hi := Max(c, b.present.value.first), Min(c + b.good - 1, b.present.value.last) + 1;
      assert Between(lo, h, hi) <==> c <= h < c + b.good && b.present.value.Has(h);
    }
  }

  lemma KeptByFirstSize(b: Share, c: int)
    ensures |KeptByFirst(b, c)|
      == if b.present.Some? then Overlap(Range(c, c + b.good - 1), b.present.value) else 0
  {
    if b.present.Some? {
      var lo, hi := Max(c, b.present.value.first), Min(c + b.good - 1, b.present.value.last) + 1;
      if lo <= hi { IntervalSize(lo, hi); }
    }
  }

  lemma GoodsTail(bs: seq<Share>)
    requires bs != [] && NonNegative(Goods(bs))
    ensures NonNegative(Goods(bs[1..])) && bs[0].good >= 0
    ensures Sum(Goods(bs)) == bs[0].good + Sum(Goods(bs[1..])) && Sum(Goods(bs[1..])) >= 0
  {
    assert Goods(bs)[1..] == Goods(bs[1..]) && Goods(bs)[0] == bs[0].good;
    assert forall i :: 0 <= i < |Goods(bs)[1..]| ==> Goods(bs)[1..][i] == Goods(bs)[i + 1];
    SumNonNegative(Goods(bs[1..]));
  }

  /** The same walk as get_score makes: `h` stays with the brick it falls to. */
  predicate Stays(bs: seq<Share>, c: int, h: int) {
    bs != [] &&
    if c <= h < c + bs[0].good then bs[0].present.Some? && bs[0].present.value.Has(h)
    else Stays(bs[1..], c + bs[0].good, h)
  }

  function Staying(bs: seq<Share>, c: int, hi: int): set<int> {
    set h | c <= h < hi && Stays(bs, c, h)
  }

  lemma StayingSplit(bs: seq<Share>, c: int, hi: int)
    requires bs != [] && 0 <= bs[0].good && c + bs[0].good <= hi
    ensures |Staying(bs, c, hi)| == |KeptByFirst(bs[0], c)| + |Staying(bs[1..], c + bs[0].good, hi)|
  {
    var a, b := KeptByFirst(bs[0], c), Staying(bs[1..], c + bs[0].good, hi);
    forall h ensures h in Staying(bs, c, hi) <==> h in a + b {
      KeptByFirstMember(bs[0], c, h);
    }
    forall h | h in a ensures h !in b {
      KeptByFirstMember(bs[0], c, h);
    }
    assert Staying(bs, c, hi) == a + b && a !! b;
  }

  lemma {:induction false} ScoreCountsStaying(bs: seq<Share>, c: int)
    requires NonNegative(Goods(bs))
    ensures Score(bs, c) == |Staying(bs, c, c + Sum(Goods(bs)))|
    decreases |bs|
  {
    if bs == [] {
      assert Staying(bs, c, c) == {};
    } else {
      GoodsTail(bs);
      ScoreCountsStaying(bs[1..], c + bs[0].good);
      StayingSplit(bs, c, c + Sum(Goods(bs)));
      KeptByFirstSize(bs[0], c);
    }
  }

  lemma {:induction false} StaysIsKept(bs: seq<Share>, c: int, h: int)
    requires NonNegative(Goods(bs)) && c <= h
    ensures Stays(bs, c, h) <==> Kept(bs, c, h)
    decreases |bs|
  {
    if bs != [] {
      GoodsTail(bs);
      KeptSplit(bs, c, h);
      if h >= c + bs[0].good {
        StaysIsKept(bs[1..], c + bs[0].good, h);
      } else {
        NotKeptEarlier(bs[1..], c + bs[0].good, h);
      }
    }
  }

  lemma NotKeptEarlier(bs: seq<Share>, c: int, h: int)
    requires NonNegative(Goods(bs)) && h < c
    ensures !Kept(bs, c, h)
  {
    ExactlyOneOwner(Goods(bs), c, h);
  }

  /** get_score is the number of hash values that have the same owner before and after. */
  lemma ScoreCountsKept(bs: seq<Share>, c: int)
    requires NonNegative(Goods(bs))
    ensures Score(bs, c) == |KeptHashes(bs, c)|
  {
    ScoreCountsStaying(bs, c);
    var hi := c + Sum(Goods(bs));
    forall h | c <= h < hi ensures Stays(bs, c, h) <==> Kept(bs, c, h) {
      StaysIsKept(bs, c, h);
    }
    assert Staying(bs, c, hi) == KeptUpTo(bs, c, hi);
  }
}
