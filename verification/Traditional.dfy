/**
  generate_file_traditional of extras/stripe-merge.c on values: the stripes keep every byte at its
  offset in the file and are OR-ed together.
 */
module Traditional {
  import opened Basics
  import opened Striping
  import opened Coalesce

  /** Byte `k` of all stripes OR-ed together; a stripe that is too short counts as zero. */
  function OrAt(rows: seq<Bytes>, k: nat): bv8 {
    if rows == [] then 0 else OrAt(rows[..|rows| - 1], k) | ByteAt(rows[|rows| - 1], k)
  }

  function Longest(rows: seq<Bytes>): nat {
    if rows == [] then 0
    else
      var m, last := Longest(rows[..|rows| - 1]), |rows[|rows| - 1]|;
      if last > m then last else m
  }

  lemma {:induction false} LongestBounds(rows: seq<Bytes>, j: nat)
    requires j < |rows|
    ensures |rows[j]| <= Longest(rows)
  {
    if j < |rows| - 1 {
      LongestBounds(rows[..|rows| - 1], j);
    }
  }

  lemma {:induction false} LongestReached(rows: seq<Bytes>) returns (j: nat)
    requires Longest(rows) > 0
    ensures j < |rows| && |rows[j]| == Longest(rows)
  {
    if |rows[|rows| - 1]| == Longest(rows) {
      j := |rows| - 1;
    } else {
      j := LongestReached(rows[..|rows| - 1]);
    }
  }

  function OrUpTo(rows: seq<Bytes>, len: nat): Bytes {
    seq(len, k requires 0 <= k < len => OrAt(rows, k))
  }

  function OrAll(rows: seq<Bytes>): Bytes {
    OrUpTo(rows, Longest(rows))
  }

  function DropAll(rows: seq<Bytes>, n: nat): (r: seq<Bytes>)
    ensures |r| == |rows| && forall j :: 0 <= j < |r| ==> r[j] == Drop(rows[j], n)
  {
    seq(|rows|, j requires 0 <= j < |rows| => Drop(rows[j], n))
  }

  lemma {:induction false} OrAtDrop(rows: seq<Bytes>, n: nat, k: nat)
    ensures OrAt(DropAll(rows, n), k) == OrAt(rows, n + k)
  {
    if rows != [] {
      var init := rows[..|rows| - 1];
      OrAtDrop(init, n, k);
      assert DropAll(rows, n)[..|rows| - 1] == DropAll(init, n);
    }
  }

  lemma LongestDrop(rows: seq<Bytes>, n: nat)
    ensures Longest(DropAll(rows, n)) == if Longest(rows) > n then Longest(rows) - n else 0
  {
    var m, d := Longest(rows), Longest(DropAll(rows, n));
    if m > 0 {
      var j := LongestReached(rows);
      LongestBounds(DropAll(rows, n), j);
    }
    if d > 0 {
      var j := LongestReached(DropAll(rows, n));
      LongestBounds(rows, j);
    }
  }

  lemma OrUpToSplit(rows: seq<Bytes>, len: nat, n: nat)
    requires len >= n
    ensures OrUpTo(rows, len) == OrUpTo(rows, n) + OrUpTo(DropAll(rows, n), len - n)
  {
    var rest := OrUpTo(DropAll(rows, n), len - n);
    forall k | 0 <= k < len - n ensures rest[k] == OrAt(rows, n + k) {
      OrAtDrop(rows, n, k);
    }
  }

  /** Block by block is the same as all at once. */
  lemma OrAllSplit(rows: seq<Bytes>, n: nat)
    ensures OrAll(rows) == OrUpTo(rows, Min(Longest(rows), n)) + OrAll(DropAll(rows, n))
  {
    LongestDrop(rows, n);
    if Longest(rows) > n {
      OrUpToSplit(rows, Longest(rows), n);
    } else {
      assert OrAll(DropAll(rows, n)) == [];
    }
  }

  /** The target file when the loop ends, block by block. */
  function Merged(rows: seq<Bytes>, n: nat, o: Out): Out
    requires n > 0
    decreases Longest(rows)
  {
    if Longest(rows) == 0 then o
    else
      LongestDrop(rows, n);
      Merged(DropAll(rows, n), n, Copy(o, OrUpTo(rows, Min(Longest(rows), n))))
  }

  /** It is the stripes OR-ed together, written in one go. */
  lemma {:induction false} MergedIsOr(rows: seq<Bytes>, n: nat, o: Out)
    requires n > 0
    ensures Merged(rows, n, o) == Copy(o, OrAll(rows))
    decreases Longest(rows)
  {
    if Longest(rows) > 0 {
      var b, rest := OrUpTo(rows, Min(Longest(rows), n)), DropAll(rows, n);
      LongestDrop(rows, n);
      calc {
        Merged(rows, n, o);
        Merged(rest, n, Copy(o, b));
        { MergedIsOr(rest, n, Copy(o, b)); }
        Copy(Copy(o, b), OrAll(rest));
        { CopiedTwice(o, b, OrAll(rest)); }
        Copy(o, b + OrAll(rest));
        { OrAllSplit(rows, n); }
        Copy(o, OrAll(rows));
      }
    }
  }

  // ---- merging what was striped ------------------------------------------------------

  /** Brick `j`'s part of `file` in the traditional format: its own bytes in place, zeros (holes)
      between them, and nothing missing at the end. */
  predicate Sparse(file: Bytes, size: nat, count: nat, j: nat, row: Bytes)
    requires size > 0 && count > 0
  {
    && |row| <= |file|
    && (forall k :: 0 <= k < |row| ==> row[k] == if BrickOf(k, size, count) == j then file[k] else 0)
    && (forall k :: 0 <= k < |file| && BrickOf(k, size, count) == j ==> k < |row|)
  }

  /** The stripes of `file`; those that are not present are missing, and read as empty. */
  predicate SparseRows(file: Bytes, size: nat, present: seq<bool>, rows: seq<Bytes>)
    requires size > 0 && |present| > 0
  {
    && |rows| == |present|
    && forall j :: 0 <= j < |rows| ==> if present[j] then Sparse(file, size, |present|, j, rows[j]) else rows[j] == []
  }

  lemma SparseByte(file: Bytes, size: nat, present: seq<bool>, rows: seq<Bytes>, j: nat, k: nat)
    requires size > 0 && |present| > 0 && SparseRows(file, size, present, rows) && j < |rows|
    ensures ByteAt(rows[j], k)
      == if BrickOf(k, size, |present|) == j && Present(file, size, present, k) then file[k] else 0
  {
  }

  lemma OrZero(x: bv8)
    ensures x | 0 == x && 0 | x == x
  {
  }

  lemma {:induction false} OrAtSparse(file: Bytes, size: nat, present: seq<bool>, rows: seq<Bytes>, m: nat, k: nat)
    requires size > 0 && |present| > 0 && SparseRows(file, size, present, rows) && m <= |rows|
    ensures OrAt(rows[..m], k)
      == if BrickOf(k, size, |present|) < m && Present(file, size, present, k) then file[k] else 0
    decreases m
  {
    if m > 0 {
      OrAtSparse(file, size, present, rows, m - 1, k);
      SparseByte(file, size, present, rows, m - 1, k);
      assert rows[..m][..m - 1] == rows[..m - 1];
      OrZero(OrAt(rows[..m - 1], k));
      OrZero(ByteAt(rows[m - 1], k));
    }
  }

  /** Every byte on a present stripe comes out at its offset, and zeros elsewhere. */
  lemma OrKeepsSurvivors(file: Bytes, size: nat, present: seq<bool>, rows: seq<Bytes>)
    requires size > 0 && |present| > 0 && SparseRows(file, size, present, rows)
    ensures |OrAll(rows)| <= |file|
    ensures forall k: nat :: Present(file, size, present, k) ==> k < |OrAll(rows)|
    ensures forall k :: 0 <= k < |OrAll(rows)| ==>
      OrAll(rows)[k] == if Present(file, size, present, k) then file[k] else 0
  {
    assert rows[..|rows|] == rows;
    if Longest(rows) > 0 {
      var j := LongestReached(rows);
    }
    forall k | 0 <= k < |OrAll(rows)|
      ensures OrAll(rows)[k] == if Present(file, size, present, k) then file[k] else 0
    {
      OrAtSparse(file, size, present, rows, |rows|, k);
    }
    forall k: nat | Present(file, size, present, k) ensures k < |OrAll(rows)| {
      var j := BrickOf(k, size, |present|);
      assert Sparse(file, size, |present|, j, rows[j]);
      LongestBounds(rows, j);
    }
  }

  /** With all stripes there, the file comes back. */
  lemma OrUndoesStriping(file: Bytes, size: nat, present: seq<bool>, rows: seq<Bytes>)
    requires size > 0 && |present| > 0 && SparseRows(file, size, present, rows)
    requires forall j :: 0 <= j < |present| ==> present[j]
    ensures OrAll(rows) == file
  {
    OrKeepsSurvivors(file, size, present, rows);
    if file != [] {
      assert Present(file, size, present, |file| - 1);
    }
    assert forall k :: 0 <= k < |file| ==> Present(file, size, present, k);
  }

  /** Written at the beginning of a target, bytes replace its beginning. */
  lemma CopiedAtStart(o: Out, b: Bytes, r: Bytes)
    requires o.pos == 0 && r == Copy(o, b).t
    ensures r == b + Drop(o.t, |b|)
  {
    CopiedLength(o, b);
    forall k | 0 <= k < |r| ensures r[k] == (b + Drop(o.t, |b|))[k] {
      CopiedByte(o, b, k);
      assert ByteAt(r, k) == r[k];
    }
  }

  /** With all stripes there, the loop writes the file over the beginning of the target, which then is
      the file if and only if it was not longer before. */
  lemma OrRestoresFile(file: Bytes, size: nat, present: seq<bool>, rows: seq<Bytes>, t: Bytes)
    requires size > 0 && |present| > 0 && SparseRows(file, size, present, rows)
    requires forall j :: 0 <= j < |present| ==> present[j]
    ensures var r := Copy(Out(t, 0), OrAll(rows)).t;
      r == file + Drop(t, |file|) && (r == file <==> |t| <= |file|)
  {
    OrUndoesStriping(file, size, present, rows);
    CopiedAtStart(Out(t, 0), file, Copy(Out(t, 0), file).t);
  }

  /** With stripes missing, what the target holds: the bytes on present stripes, zeros in place of the
      others up to the end of the longest, and the old content behind that. */
  lemma OrRestoresSurvivors(file: Bytes, size: nat, present: seq<bool>, rows: seq<Bytes>, t: Bytes, k: nat)
    requires size > 0 && |present| > 0 && SparseRows(file, size, present, rows)
    ensures var r := Copy(Out(t, 0), OrAll(rows)).t;
      && (Present(file, size, present, k) ==> k < |r| && r[k] == file[k])
      && (!Present(file, size, present, k) && k < |r| ==> r[k] == if k < Longest(rows) then 0 else ByteAt(t, k))
  {
    OrKeepsSurvivors(file, size, present, rows);
    CopiedAtStart(Out(t, 0), OrAll(rows), Copy(Out(t, 0), OrAll(rows)).t);
  }
}
