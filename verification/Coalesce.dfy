/**
  generate_file_coalesce of extras/stripe-merge.c on values: chunks are taken from the stripes in
  turn until a present stripe is used up.
 */
module Coalesce {
  import opened Wrappers
  import opened Striping

  type Bytes = seq<bv8>

  function ByteAt(t: Bytes, k: nat): bv8 {
    if k < |t| then t[k] else 0
  }

  function Zeros(n: nat): Bytes {
    if n == 0 then [] else Zeros(n - 1) + [0]
  }

  lemma {:induction false} ZerosAre(n: nat, k: nat)
    ensures |Zeros(n)| == n && ByteAt(Zeros(n), k) == 0
  {
    if n > 0 {
      ZerosAre(n - 1, k);
    }
  }

  function Put(t: Bytes, pos: nat, x: bv8): Bytes {
    if pos < |t| then t[pos := x] else t + Zeros(pos - |t|) + [x]
  }

  lemma PutByte(t: Bytes, pos: nat, x: bv8, k: nat)
    ensures |Put(t, pos, x)| == (if pos < |t| then |t| else pos + 1)
    ensures ByteAt(Put(t, pos, x), k) == if k == pos then x else ByteAt(t, k)
  {
    if pos >= |t| {
      ZerosAre(pos - |t|, if k < |t| then 0 else k - |t|);
    }
  }

  /** The target file: its content and the position in it. */
  datatype Out = Out(t: Bytes, pos: nat)

  /** lseek(2) forward. */
  function Skip(o: Out, n: nat): Out {
    Out(o.t, o.pos + n)
  }

  /** write(2): overwrites, extends, and fills a gap with zeros. */
  function Copy(o: Out, b: Bytes): Out
    decreases |b|
  {
    if b == [] then o else Copy(Out(Put(o.t, o.pos, b[0]), o.pos + 1), b[1..])
  }

  lemma {:induction false} CopiedByte(o: Out, b: Bytes, k: nat)
    ensures ByteAt(Copy(o, b).t, k) == if o.pos <= k < o.pos + |b| then b[k - o.pos] else ByteAt(o.t, k)
    decreases |b|
  {
    if b != [] {
      PutByte(o.t, o.pos, b[0], k);
      CopiedByte(Out(Put(o.t, o.pos, b[0]), o.pos + 1), b[1..], k);
    }
  }

  lemma {:induction false} CopiedLength(o: Out, b: Bytes)
    ensures |Copy(o, b).t| == if b == [] || |o.t| > o.pos + |b| then |o.t| else o.pos + |b|
    ensures Copy(o, b).pos == o.pos + |b|
    decreases |b|
  {
    if b != [] {
      PutByte(o.t, o.pos, b[0], 0);
      CopiedLength(Out(Put(o.t, o.pos, b[0]), o.pos + 1), b[1..]);
    }
  }

  /** Two writes, one after the other, are one. */
  lemma {:induction false} CopiedTwice(o: Out, a: Bytes, b: Bytes)
    ensures Copy(Copy(o, a), b) == Copy(o, a + b)
    decreases |a|
  {
    if a == [] {
      assert a + b == b;
    } else {
      CopiedTwice(Out(Put(o.t, o.pos, a[0]), o.pos + 1), a[1..], b);
      assert (a + b)[1..] == a[1..] + b;
    }
  }

  /** The steps from index `i` around to index `j`. */
  function Ahead(i: nat, j: nat, n: nat): (d: nat)
    requires i < n && j < n
    ensures d < n
  {
    if i <= j then j - i else j + n - i
  }

  /** The index after `i` in turn. */
  function Next(i: nat, n: nat): (r: nat)
    requires i < n
    ensures r < n
  {
    if i + 1 == n then 0 else i + 1
  }

  lemma NextIsModulo(i: nat, n: nat)
    requires i < n
    ensures Next(i, n) == (i + 1) % n
  {
    if i + 1 < n {
      DivSmall(i + 1, n);
    }
  }

  lemma NextIsCloser(i: nat, j: nat, n: nat)
    requires i < n && j < n
    ensures i != j ==> Ahead(Next(i, n), j, n) == Ahead(i, j, n) - 1
    ensures i == j ==> Ahead(Next(i, n), j, n) == n - 1 && Ahead(i, j, n) == 0
  {
  }

  /** The unread bytes of all stripes. */
  function Unread(left: seq<Option<Bytes>>): nat {
    if left == [] then 0 else (match left[0] case None => 0 case Some(b) => |b|) + Unread(left[1..])
  }

  lemma {:induction false} ReadingShrinks(left: seq<Option<Bytes>>, i: nat, b: Bytes)
    requires i < |left| && left[i].Some? && |b| < |left[i].value|
    ensures Unread(left[i := Some(b)]) < Unread(left)
  {
    if i == 0 {
      assert left[i := Some(b)][1..] == left[1..];
    } else {
      assert left[i := Some(b)][1..] == left[1..][i - 1 := Some(b)];
      ReadingShrinks(left[1..], i - 1, b);
    }
  }

  /** The target file when the loop ends. Stripe `p` is a present one; without any the loop would
      go on for ever. */
  function Collect(left: seq<Option<Bytes>>, size: nat, i: nat, o: Out, p: nat): Bytes
    requires size > 0 && i < |left| && p < |left| && left[p].Some?
    decreases Unread(left), Ahead(i, p, |left|)
  {
    NextIsCloser(i, p, |left|);
    match left[i]
    case None => Collect(left, size, Next(i, |left|), Skip(o, size), p)
    case Some(b) =>
      if b == [] then o.t
      else
        ReadingShrinks(left, i, Drop(b, size));
        Collect(left[i := Some(Drop(b, size))], size, Next(i, |left|), Copy(o, Take(b, size)), p)
  }

  // ---- merging what was striped ------------------------------------------------------

  /** The stripes of `file` from stripe `i` on; those that are not present are missing. */
  function Stripes(file: Bytes, size: nat, present: seq<bool>, i: nat): (r: seq<Option<Bytes>>)
    requires size > 0 && i < |present|
    ensures |r| == |present|
    ensures forall j :: 0 <= j < |r| ==>
      r[j] == if present[j] then Some(Deal(file, size, |present|, Ahead(i, j, |present|))) else None
  {
    seq(|present|, j requires 0 <= j < |present| =>
      if present[j] then Some(Deal(file, size, |present|, Ahead(i, j, |present|))) else None)
  }

  /** The stripe whose turn it is `k` bytes from now. */
  function Turn(k: nat, size: nat, i: nat, n: nat): (r: nat)
    requires size > 0 && i < n
    ensures r < n
    decreases k
  {
    if k < size then i else Turn(k - size, size, Next(i, n), n)
  }

  lemma {:induction false} TurnIsBrick(k: nat, size: nat, i: nat, n: nat)
    requires size > 0 && i < n
    ensures Turn(k, size, i, n) == (i + k / size) % n
    decreases k
  {
    if k < size {
      DivSmall(k, size);
      DivSmall(i, n);
    } else {
      TurnIsBrick(k - size, size, Next(i, n), n);
      DivShift(k, size, 1);
      if i + 1 == n {
        DivShift(i + k / size, n, 1);
      }
    }
  }

  /** Byte `k` of the file is on a stripe that is present. */
  predicate Survives(present: seq<bool>, size: nat, i: nat, k: nat)
    requires size > 0 && i < |present|
  {
    present[Turn(k, size, i, |present|)]
  }

  // ---- the loop on stripes of a file -------------------------------------------------

  lemma StripesNext(file: Bytes, size: nat, present: seq<bool>, i: nat)
    requires size > 0 && i < |present| && !present[i]
    ensures Stripes(file, size, present, i) == Stripes(Drop(file, size), size, present, Next(i, |present|))
  {
    forall j | 0 <= j < |present|
      ensures Stripes(file, size, present, i)[j] == Stripes(Drop(file, size), size, present, Next(i, |present|))[j]
    {
      NextIsCloser(i, j, |present|);
    }
  }

  lemma ChunkOf(file: Bytes, size: nat, n: nat)
    requires size > 0 && n > 0
    ensures var b := Deal(file, size, n, 0);
      Take(b, size) == Take(file, size) && Drop(b, size) == Deal(Drop(file, size), size, n, n - 1)
  {
    var rest := Deal(Drop(file, size), size, n, n - 1);
    DealTurn(file, size, n);
    if |file| >= size {
      assert (Take(file, size) + rest)[size..] == rest;
    } else {
      assert rest == [];
    }
  }

  lemma StripesTaken(file: Bytes, size: nat, present: seq<bool>, i: nat)
    requires size > 0 && i < |present| && present[i]
    ensures var b := Deal(file, size, |present|, 0);
      Stripes(file, size, present, i)[i := Some(Drop(b, size))]
      == Stripes(Drop(file, size), size, present, Next(i, |present|))
  {
    var n := |present|;
    ChunkOf(file, size, n);
    forall j | 0 <= j < n
      ensures Stripes(file, size, present, i)[i := Some(Drop(Deal(file, size, n, 0), size))][j]
        == Stripes(Drop(file, size), size, present, Next(i, n))[j]
    {
      NextIsCloser(i, j, n);
    }
  }

  lemma CollectSkips(file: Bytes, size: nat, present: seq<bool>, i: nat, o: Out, p: nat)
    requires size > 0 && i < |present| && p < |present| && present[p] && !present[i]
    ensures Collect(Stripes(file, size, present, i), size, i, o, p)
      == Collect(Stripes(Drop(file, size), size, present, Next(i, |present|)), size, Next(i, |present|),
                 Skip(o, size), p)
  {
    StripesNext(file, size, present, i);
  }

  lemma CollectCopies(file: Bytes, size: nat, present: seq<bool>, i: nat, o: Out, p: nat)
    requires size > 0 && i < |present| && p < |present| && present[p] && present[i] && file != []
    ensures Collect(Stripes(file, size, present, i), size, i, o, p)
      == Collect(Stripes(Drop(file, size), size, present, Next(i, |present|)), size, Next(i, |present|),
                 Copy(o, Take(file, size)), p)
  {
    ChunkOf(file, size, |present|);
    StripesTaken(file, size, present, i);
    assert Deal(file, size, |present|, 0) != [];
    assert Stripes(file, size, present, i)[i] == Some(Deal(file, size, |present|, 0));
  }

  /** After the last byte the loop goes on to a present stripe and ends there. */
  lemma {:induction false} CollectStops(size: nat, present: seq<bool>, i: nat, o: Out, p: nat)
    requires size > 0 && i < |present| && p < |present| && present[p]
    ensures Collect(Stripes([], size, present, i), size, i, o, p) == o.t
    decreases Ahead(i, p, |present|)
  {
    if present[i] {
      assert Stripes([], size, present, i)[i] == Some([]);
    } else {
      CollectSkips([], size, present, i, o, p);
      CollectStops(size, present, Next(i, |present|), Skip(o, size), p);
    }
  }

  /** The same merge, told by the file: its chunks go to the target in turn, or are skipped. */
  function Rebuild(file: Bytes, size: nat, present: seq<bool>, i: nat, o: Out): Bytes
    requires size > 0 && i < |present|
    decreases |file|
  {
    if file == [] then o.t
    else if present[i] then
      Rebuild(Drop(file, size), size, present, Next(i, |present|), Copy(o, Take(file, size)))
    else Rebuild(Drop(file, size), size, present, Next(i, |present|), Skip(o, size))
  }

  lemma {:induction false} CollectIsRebuild(file: Bytes, size: nat, present: seq<bool>, i: nat, o: Out, p: nat)
    requires size > 0 && i < |present| && p < |present| && present[p]
    ensures Collect(Stripes(file, size, present, i), size, i, o, p) == Rebuild(file, size, present, i, o)
    decreases |file|
  {
    if file == [] {
      CollectStops(size, present, i, o, p);
    } else if present[i] {
      CollectCopies(file, size, present, i, o, p);
      CollectIsRebuild(Drop(file, size), size, present, Next(i, |present|),
        Copy(o, Take(file, size)), p);
    } else {
      CollectSkips(file, size, present, i, o, p);
      CollectIsRebuild(Drop(file, size), size, present, Next(i, |present|), Skip(o, size), p);
    }
  }

  /** Position `x` of the target takes a byte of the file that is on a present stripe. */
  predicate Takes(file: Bytes, size: nat, present: seq<bool>, i: nat, pos: nat, x: nat)
    requires size > 0 && i < |present|
  {
    pos <= x < pos + |file| && Survives(present, size, i, x - pos)
  }

  lemma TakesLater(file: Bytes, size: nat, present: seq<bool>, i: nat, pos: nat, x: nat)
    requires size > 0 && i < |present| && file != []
    ensures x >= pos + size ==>
      Takes(file, size, present, i, pos, x) == Takes(Drop(file, size), size, present, Next(i, |present|), pos + size, x)
    ensures x < pos + size ==>
      Takes(file, size, present, i, pos, x) == (present[i] && pos <= x < pos + |Take(file, size)|)
  {
  }

  /** What position `x` should hold in the end. */
  function Wanted(file: Bytes, size: nat, present: seq<bool>, i: nat, o: Out, x: nat): bv8
    requires size > 0 && i < |present|
  {
    if Takes(file, size, present, i, o.pos, x) then file[x - o.pos] else ByteAt(o.t, x)
  }

  lemma WantedCopied(file: Bytes, size: nat, present: seq<bool>, i: nat, o: Out, x: nat)
    requires size > 0 && i < |present| && present[i] && file != []
    ensures var chunk := Take(file, size);
      Wanted(file, size, present, i, o, x)
      == Wanted(Drop(file, size), size, present, Next(i, |present|), Copy(o, chunk), x)
  {
    TakesLater(file, size, present, i, o.pos, x);
    CopiedByte(o, Take(file, size), x);
    CopiedLength(o, Take(file, size));
  }

  lemma WantedSkipped(file: Bytes, size: nat, present: seq<bool>, i: nat, o: Out, x: nat)
    requires size > 0 && i < |present| && !present[i] && file != []
    ensures Wanted(file, size, present, i, o, x)
      == Wanted(Drop(file, size), size, present, Next(i, |present|), Skip(o, size), x)
  {
    TakesLater(file, size, present, i, o.pos, x);
  }

  lemma {:induction false} RebuildByte(file: Bytes, size: nat, present: seq<bool>, i: nat, o: Out, x: nat)
    requires size > 0 && i < |present|
    ensures ByteAt(Rebuild(file, size, present, i, o), x) == Wanted(file, size, present, i, o, x)
    decreases |file|
  {
    if file != [] {
      var chunk, rest, next := Take(file, size), Drop(file, size), Next(i, |present|);
      if present[i] {
        RebuildByte(rest, size, present, next, Copy(o, chunk), x);
        WantedCopied(file, size, present, i, o, x);
      } else {
        RebuildByte(rest, size, present, next, Skip(o, size), x);
        WantedSkipped(file, size, present, i, o, x);
      }
    }
  }

  lemma {:induction false} RebuildReaches(file: Bytes, size: nat, present: seq<bool>, i: nat, o: Out, x: nat)
    requires size > 0 && i < |present|
    ensures |o.t| <= |Rebuild(file, size, present, i, o)|
    ensures Takes(file, size, present, i, o.pos, x) ==> x < |Rebuild(file, size, present, i, o)|
    decreases |file|
  {
    if file != [] {
      var chunk, rest, next := Take(file, size), Drop(file, size), Next(i, |present|);
      TakesLater(file, size, present, i, o.pos, x);
      if present[i] {
        RebuildReaches(rest, size, present, next, Copy(o, chunk), x);
        CopiedLength(o, chunk);
        assert rest != [] ==> |chunk| == size;
      } else {
        RebuildReaches(rest, size, present, next, Skip(o, size), x);
      }
    }
  }

  /** The target grows only as far as the last byte that survives. */
  lemma {:induction false} RebuildLength(file: Bytes, size: nat, present: seq<bool>, i: nat, o: Out)
    requires size > 0 && i < |present|
    ensures var r := Rebuild(file, size, present, i, o);
      |o.t| <= |r| && (|r| > |o.t| ==> Takes(file, size, present, i, o.pos, |r| - 1))
    decreases |file|
  {
    if file != [] {
      var chunk, rest, next := Take(file, size), Drop(file, size), Next(i, |present|);
      var r := Rebuild(file, size, present, i, o);
      if present[i] {
        RebuildLength(rest, size, present, next, Copy(o, chunk));
        CopiedLength(o, chunk);
        assert rest != [] ==> |chunk| == size;
      } else {
        RebuildLength(rest, size, present, next, Skip(o, size));
      }
      if |r| > |o.t| {
        TakesLater(file, size, present, i, o.pos, |r| - 1);
      }
    }
  }

  lemma SurvivesOnBrick(present: seq<bool>, size: nat, k: nat)
    requires size > 0 && |present| > 0
    ensures Survives(present, size, 0, k) == present[BrickOf(k, size, |present|)]
  {
    TurnIsBrick(k, size, 0, |present|);
  }

  /** Offset `k` of the file is on a present brick. */
  predicate Present(file: Bytes, size: nat, present: seq<bool>, k: nat)
    requires size > 0 && |present| > 0
  {
    k < |file| && present[BrickOf(k, size, |present|)]
  }

  /** `r` holds the bytes of `file` that are on a present brick, and elsewhere what `t` held or
      zero; it is no longer than that takes. */
  ghost predicate HoldsSurvivors(file: Bytes, size: nat, present: seq<bool>, t: Bytes, r: Bytes)
    requires size > 0 && |present| > 0
  {
    && (forall k: nat :: Present(file, size, present, k) ==> k < |r| && r[k] == file[k])
    && (forall k: nat :: !Present(file, size, present, k) && k < |r| ==> r[k] == ByteAt(t, k))
    && |t| <= |r| && (|r| > |t| ==> Present(file, size, present, |r| - 1))
  }

  lemma PresentTakes(file: Bytes, size: nat, present: seq<bool>, k: nat)
    requires size > 0 && |present| > 0
    ensures Present(file, size, present, k) == Takes(file, size, present, 0, 0, k)
  {
    SurvivesOnBrick(present, size, k);
  }

  lemma RebuildHoldsByte(file: Bytes, size: nat, present: seq<bool>, o: Out, r: Bytes, k: nat)
    requires size > 0 && |present| > 0 && o.pos == 0 && r == Rebuild(file, size, present, 0, o)
    ensures Present(file, size, present, k) ==> k < |r| && r[k] == file[k]
    ensures !Present(file, size, present, k) && k < |r| ==> r[k] == ByteAt(o.t, k)
  {
    PresentTakes(file, size, present, k);
    RebuildReaches(file, size, present, 0, o, k);
    RebuildByte(file, size, present, 0, o, k);
  }

  lemma RebuildHolds(file: Bytes, size: nat, present: seq<bool>, o: Out, r: Bytes)
    requires size > 0 && |present| > 0 && o.pos == 0 && r == Rebuild(file, size, present, 0, o)
    ensures HoldsSurvivors(file, size, present, o.t, r)
  {
    forall k: nat
      ensures Present(file, size, present, k) ==> k < |r| && r[k] == file[k]
      ensures !Present(file, size, present, k) && k < |r| ==> r[k] == ByteAt(o.t, k)
    {
      RebuildHoldsByte(file, size, present, o, r, k);
    }
    RebuildLength(file, size, present, 0, o);
    if |r| > |o.t| {
      PresentTakes(file, size, present, |r| - 1);
    }
  }

  /** With any stripes missing but one, the loop ends and puts every byte of the stripes that are
      there at its offset in the file. Everything else is as in the old target, or zero. */
  lemma MergeRestoresSurvivors(file: Bytes, size: nat, present: seq<bool>, t: Bytes, p: nat)
    requires size > 0 && p < |present| && present[p]
    ensures HoldsSurvivors(file, size, present, t, Collect(Stripes(file, size, present, 0), size, 0, Out(t, 0), p))
  {
    CollectIsRebuild(file, size, present, 0, Out(t, 0), p);
    RebuildHolds(file, size, present, Out(t, 0), Rebuild(file, size, present, 0, Out(t, 0)));
  }

  lemma RebuildWhole(file: Bytes, size: nat, present: seq<bool>, t: Bytes)
    requires size > 0 && |present| > 0 && forall j :: 0 <= j < |present| ==> present[j]
    ensures Rebuild(file, size, present, 0, Out(t, 0)) == file + Drop(t, |file|)
  {
    var r := Rebuild(file, size, present, 0, Out(t, 0));
    RebuildLength(file, size, present, 0, Out(t, 0));
    RebuildReaches(file, size, present, 0, Out(t, 0), if file == [] then 0 else |file| - 1);
    forall k | 0 <= k < |r| ensures r[k] == if k < |file| then file[k] else ByteAt(t, k) {
      RebuildByte(file, size, present, 0, Out(t, 0), k);
      assert ByteAt(r, k) == r[k];
    }
  }

  /** With all stripes there, the loop writes the file over the beginning of the target. The target
      is then the file if and only if it was not longer before: it is opened without truncation. */
  lemma MergeUndoesStriping(file: Bytes, size: nat, present: seq<bool>, t: Bytes, p: nat)
    requires size > 0 && p < |present| && forall j :: 0 <= j < |present| ==> present[j]
    ensures var r := Collect(Stripes(file, size, present, 0), size, 0, Out(t, 0), p);
      r == file + Drop(t, |file|) && (r == file <==> |t| <= |file|)
  {
    CollectIsRebuild(file, size, present, 0, Out(t, 0), p);
    RebuildWhole(file, size, present, t);
  }
}
