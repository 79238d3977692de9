/**
  How the stripe translator spreads a file over bricks in the coalesced format: chunk by chunk in
  turn, each brick's chunks one after the other (xlators/cluster/stripe/src/stripe-helpers.c).
 */
module Striping {

  function Drop<X>(s: seq<X>, k: nat): seq<X> {
    if k >= |s| then [] else s[k..]
  }

  function Take<X>(s: seq<X>, k: nat): seq<X> {
    if k >= |s| then s else s[..k]
  }

  /** The part of `file` for the brick whose turn comes after `j` chunks for others. */
  function Deal<X>(file: seq<X>, size: nat, count: nat, j: nat): seq<X>
    requires size > 0 && j < count
    decreases |file|
  {
    if file == [] then []
    else if j == 0 then Take(file, size) + Deal(Drop(file, size), size, count, count - 1)
    else Deal(Drop(file, size), size, count, j - 1)
  }

  /** The brick that holds offset `o`. */
  function BrickOf(o: nat, size: nat, count: nat): nat
    requires size > 0 && count > 0
  {
    o / size % count
  }

  /** Where that brick holds it: coalesced_offset. */
  function CoalescedOffset(o: nat, size: nat, count: nat): nat
    requires size > 0 && count > 0
  {
    Positive(size, count);
    o / (size * count) * size + o % size
  }

  lemma Positive(a: nat, b: nat)
    requires a > 0 && b > 0
    ensures a * b > 0
  {
  }

  lemma DropDrop<X>(s: seq<X>, a: nat, b: nat)
    ensures Drop(Drop(s, a), b) == Drop(s, a + b)
  {
  }

  /** The length of `i` chunks, which is `i * size`. */
  function Chunks(i: nat, size: nat): nat {
    if i == 0 then 0 else size + Chunks(i - 1, size)
  }

  lemma {:induction false} ChunksLength(i: nat, size: nat)
    ensures Chunks(i, size) == i * size
  {
    if i > 0 {
      ChunksLength(i - 1, size);
      assert i * size == (i - 1) * size + size;
    }
  }

  lemma {:induction false} ChunksAdd(i: nat, k: nat, size: nat)
    ensures Chunks(i, size) + Chunks(k, size) == Chunks(i + k, size)
  {
    if i > 0 {
      ChunksAdd(i - 1, k, size);
    }
  }

  /** Skipping `i` chunks. */
  lemma {:induction false} DealSkip<X>(file: seq<X>, size: nat, count: nat, i: nat, j: nat)
    requires size > 0 && i + j < count
    ensures Deal(file, size, count, i + j) == Deal(Drop(file, Chunks(i, size)), size, count, j)
    decreases i
  {
    if i == 0 {
      assert Drop(file, 0) == file;
    } else {
      var rest, skip := Drop(file, size), Chunks(i - 1, size);
      calc {
        Deal(file, size, count, i + j);
        Deal(rest, size, count, i - 1 + j);
        { DealSkip(rest, size, count, i - 1, j); }
        Deal(Drop(rest, skip), size, count, j);
        { DropDrop(file, size, skip); }
        Deal(Drop(file, size + skip), size, count, j);
      }
    }
  }

  lemma DealTurn<X>(file: seq<X>, size: nat, count: nat)
    requires size > 0 && count > 0
    ensures Deal(file, size, count, 0) == Take(file, size) + Deal(Drop(file, size), size, count, count - 1)
  {
  }

  lemma DropRound<X>(file: seq<X>, size: nat, count: nat, j: nat)
    requires j < count
    ensures Drop(Drop(file, Chunks(j, size) + size), Chunks(count - 1 - j, size)) == Drop(file, Chunks(count, size))
  {
    DropDrop(file, Chunks(j, size) + size, Chunks(count - 1 - j, size));
    LineEnd(size, count, j);
  }

  /** From just after the brick's turn to its next one. */
  lemma DealRound<X>(rest: seq<X>, far: seq<X>, size: nat, count: nat, j: nat)
    requires size > 0 && j < count && far == Drop(rest, Chunks(count - 1 - j, size))
    ensures Deal(rest, size, count, count - 1) == Deal(far, size, count, j)
  {
    DealSkip(rest, size, count, count - 1 - j, j);
  }

  /** One whole line: `count` chunks, one for each brick. */
  lemma DealLine<X>(file: seq<X>, size: nat, count: nat, j: nat)
    requires size > 0 && j < count
    ensures Deal(file, size, count, j)
      == Take(Drop(file, Chunks(j, size)), size) + Deal(Drop(file, Chunks(count, size)), size, count, j)
  {
    var mine := Drop(file, Chunks(j, size));
    calc {
      Deal(file, size, count, j);
      { DealSkip(file, size, count, j, 0); }
      Deal(mine, size, count, 0);
      { DealTurn(mine, size, count); }
      Take(mine, size) + Deal(Drop(mine, size), size, count, count - 1);
      { DropDrop(file, Chunks(j, size), size); }
      Take(mine, size) + Deal(Drop(file, Chunks(j, size) + size), size, count, count - 1);
      { DropRound(file, size, count, j);
        DealRound(Drop(file, Chunks(j, size) + size), Drop(file, Chunks(count, size)), size, count, j); }
      Take(mine, size) + Deal(Drop(file, Chunks(count, size)), size, count, j);
    }
  }

  lemma LineEnd(size: nat, count: nat, j: nat)
    requires j < count
    ensures Chunks(j, size) + size + Chunks(count - 1 - j, size) == Chunks(count, size)
  {
    ChunksAdd(j, count - j, size);
  }

  lemma DivSmall(o: nat, d: nat)
    requires o < d
    ensures o / d == 0 && o % d == o
  {
  }

  lemma DivShift(o: nat, d: nat, m: nat)
    requires d > 0 && o >= d * m
    ensures (o - d * m) / d == o / d - m && (o - d * m) % d == o % d
  {
    var q, r := o / d, o % d;
    assert o == d * q + r;
    assert o - d * m == d * (q - m) + r;
    DivUnique(o - d * m, d, q - m, r);
  }

  lemma MulMonotone(d: nat, a: int, b: int)
    requires a <= b
    ensures d * a <= d * b
  {
    assert d * (b - a) >= 0;
  }

  lemma DivUnique(x: int, d: nat, q: int, r: nat)
    requires d > 0 && x == d * q + r && r < d
    ensures x / d == q && x % d == r
  {
    var q1, r1 := x / d, x % d;
    assert x == d * q1 + r1 && 0 <= r1 < d;
    MulMonotone(d, q + 1, if q1 > q then q1 else q + 1);
    MulMonotone(d, q1 + 1, if q > q1 then q else q1 + 1);
    assert d * (q + 1) == d * q + d && d * (q1 + 1) == d * q1 + d;
  }

  /** The first line, in numbers. */
  lemma FirstLine(o: nat, size: nat, count: nat)
    requires size > 0 && count > 0 && o < size * count
    ensures BrickOf(o, size, count) == o / size && CoalescedOffset(o, size, count) == o % size
    ensures o / size < count && Chunks(o / size, size) + o % size == o
  {
    var q := o / size;
    MulMonotone(size, count, if q >= count then q else count);
    DivSmall(q, count);
    DivSmall(o, size * count);
    ChunksLength(q, size);
  }

  /** Every later line, in numbers. */
  lemma LaterLine(o: nat, size: nat, count: nat)
    requires size > 0 && count > 0 && o >= size * count
    ensures BrickOf(o - size * count, size, count) == BrickOf(o, size, count)
    ensures CoalescedOffset(o - size * count, size, count) == CoalescedOffset(o, size, count) - size
  {
    var line := size * count;
    Positive(size, count);
    DivShift(o, size, count);
    assert o / size >= count;
    DivShift(o / size, count, 1);
    DivShift(o, line, 1);
    var q := o / line;
    assert (q - 1) * size == q * size - size;
  }

  lemma PieceAt<X>(file: seq<X>, size: nat, j: nat, k: nat)
    requires k < size && Chunks(j, size) + k < |file|
    ensures var piece := Take(Drop(file, Chunks(j, size)), size);
      k < |piece| && piece[k] == file[Chunks(j, size) + k]
  {
  }

  /** What the brick holds at `k` in the line after the first. */
  lemma DealtLater<X>(file: seq<X>, size: nat, count: nat, j: nat, k: nat)
    requires size > 0 && j < count && |file| > Chunks(count, size)
    requires k < |Deal(Drop(file, Chunks(count, size)), size, count, j)|
    ensures k + size < |Deal(file, size, count, j)|
    ensures Deal(file, size, count, j)[k + size] == Deal(Drop(file, Chunks(count, size)), size, count, j)[k]
  {
    DealLine(file, size, count, j);
    FullPiece(file, size, count, j);
  }

  lemma DealtFirst<X>(file: seq<X>, size: nat, count: nat, j: nat, k: nat)
    requires size > 0 && j < count && k < size && Chunks(j, size) + k < |file|
    ensures k < |Deal(file, size, count, j)| && Deal(file, size, count, j)[k] == file[Chunks(j, size) + k]
  {
    DealLine(file, size, count, j);
    PieceAt(file, size, j, k);
  }

  /** Dealing puts each byte where the stripe translator looks for it. */
  lemma {:induction false} DealtWhereLookedFor<X>(file: seq<X>, size: nat, count: nat, o: nat)
    requires size > 0 && count > 0 && o < |file|
    ensures var brick := Deal(file, size, count, BrickOf(o, size, count));
      var k := CoalescedOffset(o, size, count);
      k < |brick| && brick[k] == file[o]
    decreases o
  {
    var j := BrickOf(o, size, count);
    var line := Chunks(count, size);
    ChunksLength(count, size);
    Positive(size, count);
    if o < line {
      FirstLine(o, size, count);
      DealtFirst(file, size, count, j, o % size);
    } else {
      LaterLine(o, size, count);
      DealtWhereLookedFor(Drop(file, line), size, count, o - line);
      DealtLater(file, size, count, j, CoalescedOffset(o - line, size, count));
    }
  }

  lemma FullPiece<X>(file: seq<X>, size: nat, count: nat, j: nat)
    requires size > 0 && j < count && |file| > Chunks(count, size)
    ensures |Take(Drop(file, Chunks(j, size)), size)| == size
  {
    LineEnd(size, count, j);
  }

  /** And every byte of a brick is one of the file's: nothing else is stored. */
  lemma {:induction false} DealtIsFromFile<X>(file: seq<X>, size: nat, count: nat, j: nat, k: nat) returns (o: nat)
    requires size > 0 && j < count && k < |Deal(file, size, count, j)|
    ensures o < |file| && BrickOf(o, size, count) == j && CoalescedOffset(o, size, count) == k
    decreases |file|
  {
    var line := Chunks(count, size);
    ChunksLength(count, size);
    Positive(size, count);
    DealLine(file, size, count, j);
    LineEnd(size, count, j);
    if k < |Take(Drop(file, Chunks(j, size)), size)| {
      o := Chunks(j, size) + k;
      ChunksLength(j, size);
      DivUnique(o, size, j, k);
      FirstLine(o, size, count);
    } else {
      FullPiece(file, size, count, j);
      var o1 := DealtIsFromFile(Drop(file, line), size, count, j, k - size);
      o := o1 + line;
      LaterLine(o, size, count);
    }
  }
}
