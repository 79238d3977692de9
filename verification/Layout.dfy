/**
  The arithmetic of extras/rebalance.py: apportioning the 32-bit hash ring by brick size,
  ranges, and the score of a proposed order.
 */
module Layout {

  const RING: nat := 0x1_0000_0000

  // ---- shares ------------------------------------------------------------------------

  function Sum(s: seq<int>): int {
    if s == [] then 0 else s[0] + Sum(s[1..])
  }

  /** (size << 32) / total, and 0 for an empty brick. */
  function Floor(size: nat, total: nat): nat
    requires size != 0 ==> total != 0
  {
    if size == 0 then 0 else size * RING / total
  }

  function Floors(sizes: seq<nat>, total: nat): (r: seq<int>)
    requires total != 0
    ensures |r| == |sizes|
  {
    if sizes == [] then [] else [Floor(sizes[0], total)] + Floors(sizes[1..], total)
  }

  lemma {:induction false} FloorsAt(sizes: seq<nat>, total: nat, i: nat)
    requires total != 0 && i < |sizes|
    ensures Floors(sizes, total)[i] == Floor(sizes[i], total)
  {
    if i > 0 {
      FloorsAt(sizes[1..], total, i - 1);
    }
  }

  /** The brick that gets the leftover: the first with a share, or else the first of all. */
  function Lucky(shares: seq<int>): (k: nat)
    requires shares != []
    ensures k < |shares|
  {
    if shares[0] != 0 || |shares| == 1 then 0
    else
      var k := Lucky(shares[1..]);
      if shares[1..][k] != 0 then k + 1 else 0
  }

  predicate IsLucky(shares: seq<int>, k: nat) {
    && k < |shares| && (forall i :: 0 <= i < k ==> shares[i] == 0)
    && (shares[k] != 0 || (k == 0 && forall i :: 0 <= i < |shares| ==> shares[i] == 0))
  }

  lemma {:induction false} LuckyIs(shares: seq<int>, k: nat)
    requires IsLucky(shares, k)
    ensures Lucky(shares) == k
  {
    if shares[0] == 0 && |shares| > 1 {
      LuckyIs(shares[1..], if k == 0 then 0 else k - 1);
    }
  }

  /** The good sizes that calc_sizes computes. */
  function GoodSizes(sizes: seq<nat>, total: nat): seq<int>
    requires total != 0 && sizes != []
  {
    var f := Floors(sizes, total);
    f[Lucky(f) := f[Lucky(f)] + (RING - Sum(f))]
  }

  lemma {:induction false} SumUpdate(s: seq<int>, k: nat, v: int)
    requires k < |s|
    ensures Sum(s[k := v]) == Sum(s) - s[k] + v
  {
    if k == 0 {
      assert s[k := v][1..] == s[1..];
    } else {
      assert s[k := v][1..] == s[1..][k - 1 := v];
      SumUpdate(s[1..], k - 1, v);
    }
  }

  lemma {:induction false} SumAppend(a: seq<int>, b: seq<int>)
    ensures Sum(a + b) == Sum(a) + Sum(b)
  {
    if a == [] {
      assert a + b == b;
    } else {
      assert (a + b)[1..] == a[1..] + b;
      SumAppend(a[1..], b);
    }
  }

  lemma FloorBounds(size: nat, total: nat)
    requires total != 0
    ensures total * Floor(size, total) <= size * RING < total * Floor(size, total) + total
  {
    if size != 0 {
      var x := size * RING;
      assert x == total * (x / total) + x % total;
    }
  }

  lemma Distribute(t: int, a: int, b: int)
    ensures t * (a + b) == t * a + t * b
  {
  }

  /** What rounding down loses, multiplied out. */
  lemma {:induction false} FloorsLoss(sizes: seq<nat>, total: nat)
    requires total != 0
    ensures total * Sum(Floors(sizes, total)) <= Sum(sizes) * RING
    ensures sizes != [] ==> Sum(sizes) * RING < total * Sum(Floors(sizes, total)) + total * |sizes|
  {
    if sizes != [] {
      var f, g := Floor(sizes[0], total), Sum(Floors(sizes[1..], total));
      FloorBounds(sizes[0], total);
      FloorsLoss(sizes[1..], total);
      assert Floors(sizes, total)[1..] == Floors(sizes[1..], total);
      Distribute(total, f, g);
      Distribute(total, 1, |sizes[1..]|);
      assert Sum(sizes) * RING == sizes[0] * RING + Sum(sizes[1..]) * RING;
    }
  }

  lemma CancelFactor(t: int, a: int, b: int)
    requires t > 0
    ensures t * a <= t * b ==> a <= b
    ensures t * a < t * b ==> a < b
  {
    if a > b {
      Distribute(t, b, a - b);
    }
  }

  /** The floor shares leave less than one unit per brick, and never too little. */
  lemma LeftoverBounded(sizes: seq<nat>, total: nat)
    requires total != 0 && sizes != [] && Sum(sizes) == total
    ensures 0 <= RING - Sum(Floors(sizes, total)) < |sizes|
  {
    var s := Sum(Floors(sizes, total));
    FloorsLoss(sizes, total);
    CancelFactor(total, s, RING);
    Distribute(total, s, |sizes|);
    CancelFactor(total, RING, s + |sizes|);
  }

  /** The final shares use up the ring exactly, and none is negative. */
  lemma GoodSizesFillRing(sizes: seq<nat>, total: nat)
    requires total != 0 && sizes != []
    ensures |GoodSizes(sizes, total)| == |sizes| && Sum(GoodSizes(sizes, total)) == RING
    ensures Sum(sizes) == total ==> forall i :: 0 <= i < |sizes| ==> GoodSizes(sizes, total)[i] >= 0
  {
    var f := Floors(sizes, total);
    SumUpdate(f, Lucky(f), f[Lucky(f)] + (RING - Sum(f)));
    if Sum(sizes) == total {
      LeftoverBounded(sizes, total);
      forall i | 0 <= i < |sizes| ensures GoodSizes(sizes, total)[i] >= 0 {
        FloorsAt(sizes, total, i);
      }
    }
  }

  lemma FloorIs(size: nat, total: nat)
    requires total != 0
    ensures Floor(size, total) == size * RING / total
  {
  }

  /** Every brick gets its proportion of the ring, rounded down, and the first brick with a share what is left,
      which is less than one unit per brick. */
  lemma GoodSizesProportional(sizes: seq<nat>, total: nat, i: nat)
    requires total != 0 && sizes != [] && Sum(sizes) == total && i < |sizes|
    ensures var good, lucky := GoodSizes(sizes, total)[i], Lucky(Floors(sizes, total));
      && (i != lucky ==> good == sizes[i] * RING / total)
      && (i == lucky ==> sizes[i] * RING / total <= good < sizes[i] * RING / total + |sizes|)
  {
    LeftoverBounded(sizes, total);
    FloorsAt(sizes, total, i);
    FloorIs(sizes[i], total);
  }

  // ---- ranges ------------------------------------------------------------------------

  /** r_start and r_end, both inclusive. */
  datatype Range = Range(first: int, last: int) {
    predicate Has(h: int) {
      first <= h <= last
    }
  }

  /** The start of range `i` when shares are laid out one after the other from `c`. */
  function StartOf(shares: seq<int>, c: int, i: nat): int
    requires i <= |shares|
  {
    c + Sum(shares[..i])
  }

  /** Hash `h` falls into range `i`. */
  predicate Owns(shares: seq<int>, c: int, i: nat, h: int)
    requires i < |shares|
  {
    StartOf(shares, c, i) <= h < StartOf(shares, c, i + 1)
  }

  predicate NonNegative(shares: seq<int>) {
    forall i :: 0 <= i < |shares| ==> shares[i] >= 0
  }

  lemma {:induction false} SumNonNegative(s: seq<int>)
    requires NonNegative(s)
    ensures Sum(s) >= 0
  {
    if s != [] {
      SumNonNegative(s[1..]);
    }
  }

  lemma StartMonotone(shares: seq<int>, c: int, i: nat, j: nat)
    requires i <= j <= |shares| && NonNegative(shares)
    ensures StartOf(shares, c, i) <= StartOf(shares, c, j)
  {
    assert shares[..j] == shares[..i] + shares[i..j];
    SumAppend(shares[..i], shares[i..j]);
    SumNonNegative(shares[i..j]);
  }

  /** Every hash of the laid-out stretch has exactly one owner, and nothing outside has any. */
  lemma ExactlyOneOwner(shares: seq<int>, c: int, h: int)
    requires NonNegative(shares)
    ensures (exists i :: 0 <= i < |shares| && Owns(shares, c, i, h)) <==> c <= h < c + Sum(shares)
    ensures forall i, j ::
      0 <= i < |shares| && 0 <= j < |shares| && Owns(shares, c, i, h) && Owns(shares, c, j, h) ==> i == j
  {
    assert shares[..0] == [] && shares[..|shares|] == shares;
    forall i, j | 0 <= i < j < |shares| && Owns(shares, c, i, h) && Owns(shares, c, j, h) ensures false {
      StartMonotone(shares, c, i + 1, j);
    }
    if exists i :: 0 <= i < |shares| && Owns(shares, c, i, h) {
      var i :| 0 <= i < |shares| && Owns(shares, c, i, h);
      StartMonotone(shares, c, 0, i);
      StartMonotone(shares, c, i + 1, |shares|);
    }
    if c <= h < c + Sum(shares) {
      var i := FindOwner(shares, c, h);
    }
  }

  lemma FindOwner(shares: seq<int>, c: int, h: int) returns (i: nat)
    requires NonNegative(shares) && c <= h < c + Sum(shares)
    ensures i < |shares| && Owns(shares, c, i, h)
  {
    i := 0;
    assert shares[..0] == [] && shares[..|shares|] == shares;
    while h >= StartOf(shares, c, i + 1)
      invariant i < |shares| && StartOf(shares, c, i) <= h
      decreases |shares| - i
    {
      i := i + 1;
    }
  }
}
