/**
  cli_cmd_create_disperse_check of cli/src/cli-cmd-parser.c, for a volume whose data count is not
  given: the default redundancy and the checks on it.
 */
module Disperse {

  const INT_MAX: nat := 0x7fff_ffff

  // ---- powers of two -----------------------------------------------------------------

  function Pow2(w: nat): nat {
    if w == 0 then 1 else 2 * Pow2(w - 1)
  }

  predicate PowerOfTwo(x: nat) {
    x == 1 || (x > 1 && x % 2 == 0 && PowerOfTwo(x / 2))
  }

  /** Bitwise and. */
  function BitAnd(x: nat, y: nat): nat {
    if x == 0 || y == 0 then 0 else x % 2 * (y % 2) + 2 * BitAnd(x / 2, y / 2)
  }

  /** x & -x, where -x is two's complement in `w` bits. */
  function LowBit(x: nat, w: nat): nat
    requires x <= Pow2(w)
  {
    BitAnd(x, if x == 0 then 0 else Pow2(w) - x)
  }

  /** A number has no bit in common with its complement. */
  lemma {:induction false} AndComplement(y: nat, w: nat)
    requires y < Pow2(w)
    ensures BitAnd(y, Pow2(w) - 1 - y) == 0
    decreases w
  {
    if y > 0 && Pow2(w) - 1 - y > 0 {
      AndComplement(y / 2, w - 1);
      var z := Pow2(w) - 1 - y;
      assert z / 2 == Pow2(w - 1) - 1 - y / 2 && y % 2 + z % 2 == 1;
    }
  }

  /** x & -x is x exactly for the powers of two. */
  lemma {:induction false} LowBitOfPower(x: nat, w: nat)
    requires 0 < x < Pow2(w)
    ensures LowBit(x, w) == x <==> PowerOfTwo(x)
    decreases w
  {
    var y, z := x / 2, Pow2(w) - x;
    assert w > 0;
    if x % 2 == 0 {
      assert z % 2 == 0 && z / 2 == Pow2(w - 1) - y && 0 < y < Pow2(w - 1);
      LowBitOfPower(y, w - 1);
      assert LowBit(x, w) == 2 * LowBit(y, w - 1);
    } else {
      assert z % 2 == 1 && z / 2 == Pow2(w - 1) - 1 - y;
      AndComplement(y, w - 1);
      assert LowBit(x, w) == 1;
    }
  }

  /** Between a power of two and its double there is no other. */
  lemma {:induction false} PowersDouble(p: nat, q: nat)
    requires PowerOfTwo(p) && PowerOfTwo(q) && p < q
    ensures 2 * p <= q
    decreases q
  {
    if p > 1 {
      PowersDouble(p / 2, q / 2);
    }
  }

  /** The largest power of two up to `d`. */
  lemma {:induction false} PowerBelow(d: nat) returns (p: nat)
    requires d > 0
    ensures PowerOfTwo(p) && p <= d < 2 * p
    decreases d
  {
    if d == 1 {
      p := 1;
    } else {
      var h := PowerBelow(d / 2);
      p := 2 * h;
      assert p / 2 == h;
    }
  }

  // ---- the default redundancy --------------------------------------------------------

  /** Redundancy `r` is allowed for `d` bricks and leaves a power of two of data bricks. */
  predicate Optimal(d: nat, r: nat) {
    1 <= r <= (d - 1) / 2 && PowerOfTwo(d - r)
  }

  predicate LeastOptimal(d: nat, r: nat) {
    Optimal(d, r) && forall k: nat :: k < r ==> !Optimal(d, k)
  }

  lemma NoneOptimal(d: nat, r: nat)
    requires PowerOfTwo(d)
    ensures !Optimal(d, r)
  {
    if Optimal(d, r) {
      PowersDouble(d - r, d);
    }
  }

  lemma SomeOptimal(d: nat) returns (r: nat)
    requires d >= 3 && !PowerOfTwo(d)
    ensures Optimal(d, r)
  {
    var p := PowerBelow(d);
    r := d - p;
  }

  /** The test of the source: (tmp & -tmp) != tmp. */
  method NotPower(tmp: nat) returns (b: bool)
    requires tmp <= INT_MAX
    ensures b <==> tmp != 0 && !PowerOfTwo(tmp)
  {
    Pow32();
    b := LowBit(tmp, 32) != tmp;
    if tmp != 0 {
      LowBitOfPower(tmp, 32);
    }
  }

  lemma Pow32()
    ensures Pow2(32) == 0x1_0000_0000
  {
    assert Pow2(8) == 0x100;
    assert Pow2(16) == 0x1_0000;
    assert Pow2(24) == 0x100_0000;
  }

  /** The search loop. It returns 0 when it finds nothing, which is when there is nothing: `disperse`
      is below 3 or a power of two itself. */
  method SearchRedundancy(disperse: nat) returns (r: nat)
    requires 1 <= disperse <= INT_MAX
    ensures r == 0 <==> disperse < 3 || PowerOfTwo(disperse)
    ensures r != 0 ==> LeastOptimal(disperse, r)
  {
    var tmp := disperse - 1;
    var i := tmp / 2;
    while i > 0
      invariant 0 <= i <= (disperse - 1) / 2 && disperse - tmp == (disperse - 1) / 2 - i + 1
      invariant forall k: nat :: k < disperse - tmp ==> !Optimal(disperse, k)
    {
      var more := NotPower(tmp);
      if !more {
        break;
      }
      i, tmp := i - 1, tmp - 1;
    }
    r := if i == 0 then 0 else disperse - tmp;
    if disperse >= 3 {
      if PowerOfTwo(disperse) {
        NoneOptimal(disperse, r);
      } else {
        var k := SomeOptimal(disperse);
      }
    }
  }

  // ---- the check ---------------------------------------------------------------------

  datatype Question = NoOptimum | Optimum(redundancy: nat) | NotOptimal

  /** The redundancy that goes with `d` bricks when none is given. */
  ghost predicate Default(d: nat, r: nat) {
    if PowerOfTwo(d) then r == 1 else LeastOptimal(d, r)
  }

  /** Whether the user has agreed to the default. */
  predicate Agreed(d: nat, r: nat, answer: Question -> bool) {
    if PowerOfTwo(d) then answer(NoOptimum) else r == 1 || answer(Optimum(r))
  }

  /** The function with `data` unset; `answer` is what the user answers to each question. Without a
      redundancy the default `best` is taken if the user agrees; a given one must be allowed, and
      needs consent unless it leaves a power of two. */
  method CheckDisperse(disperse: int, redundancy: int, count: int, answer: Question -> bool)
    returns (ok: bool, d: int, r: int, ghost best: nat)
    requires disperse <= INT_MAX && count <= INT_MAX && -1 <= redundancy <= INT_MAX
    ensures ok ==> d == All(disperse, count) && r <= (d - 1) / 2 && (redundancy != 0 ==> d >= 3 && r >= 1)
    ensures All(disperse, count) < 3 && redundancy != 0 ==> !ok
    ensures All(disperse, count) >= 3 && redundancy == -1 ==>
      && Default(All(disperse, count), best) && best <= (All(disperse, count) - 1) / 2
      && (ok <==> Agreed(All(disperse, count), best, answer)) && (ok ==> r == best)
    ensures All(disperse, count) >= 3 && redundancy != -1 ==>
      && (ok <==> redundancy <= (All(disperse, count) - 1) / 2
                  && (PowerOfTwo(All(disperse, count) - redundancy) || answer(NotOptimal)))
      && (ok ==> r == redundancy)
  {
    ok, d, r, best := false, disperse, redundancy, 0;
    if d <= 0 {
      if count < 3 {
        return;
      }
      d := count;
    }
    var tmp := 0;
    if r == -1 {
      r := SearchRedundancy(d);
      best := if r == 0 then 1 else r;
      if r == 0 {
        if !answer(NoOptimum) {
          return;
        }
        r := 1;
      } else if r > 1 && !answer(Optimum(r)) {
        return;
      }
    } else {
      tmp := d - r;
    }
    if r > (d - 1) / 2 {
      return;
    }
    var rough := NotPower(tmp);
    if rough && !answer(NotOptimal) {
      return;
    }
    ok := true;
  }

  /** The number of bricks of one set: all of them unless a disperse count is given. */
  function All(disperse: int, count: int): int {
    if disperse <= 0 then count else disperse
  }
}
