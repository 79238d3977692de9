/**
  The two merge loops of extras/stripe-merge.c on open files. A missing stripe is a null reference.
  Reads and writes of regular files are taken to succeed and to be complete.
 */
module StripeMerge {
  import opened Wrappers
  import opened Basics
  import opened Striping
  import opened Coalesce
  import opened Traditional

  class Source {
    const data: Bytes
    var pos: nat

    constructor (content: Bytes)
      ensures data == content && pos == 0
    {
      data, pos := content, 0;
    }

    function Rest(): Bytes
      reads this
    {
      Drop(data, pos)
    }

    /** read(2): up to `count` bytes from the file position on. */
    method Read(count: nat) returns (b: Bytes)
      modifies this
      ensures b == Take(old(Rest()), count) && Rest() == Drop(old(Rest()), count)
    {
      b := Take(Drop(data, pos), count);
      DropDrop(data, pos, count);
      assert |b| < count ==> Drop(data, pos + |b|) == [] && Drop(data, pos + count) == [];
      pos := pos + |b|;
    }
  }

  class Target {
    var data: Bytes
    var pos: nat

    function State(): Out
      reads this
    {
      Out(data, pos)
    }

    method Write(b: Bytes)
      modifies this
      ensures State() == Copy(old(State()), b)
    {
      var o := Copy(Out(data, pos), b);
      data, pos := o.t, o.pos;
    }

    method Seek(count: nat)
      modifies this
      ensures State() == Skip(old(State()), count)
    {
      pos := pos + count;
    }
  }

  /** The unread parts of the stripes. */
  function Lefts(fds: seq<Source?>): (r: seq<Option<Bytes>>)
    reads fds
    ensures |r| == |fds|
    ensures forall j :: 0 <= j < |fds| ==> r[j] == if fds[j] == null then None else Some(fds[j].Rest())
  {
    seq(|fds|, j requires 0 <= j < |fds| reads fds => if fds[j] == null then None else Some(fds[j].Rest()))
  }

  predicate Separate(fds: seq<Source?>) {
    forall i, j :: 0 <= i < j < |fds| && fds[i] != null ==> fds[i] != fds[j]
  }

  method ReadFrom(fds: seq<Source?>, i: nat, size: nat) returns (b: Bytes)
    requires i < |fds| && fds[i] != null && Separate(fds)
    modifies fds[i]
    ensures b == Take(old(fds[i].Rest()), size)
    ensures Lefts(fds) == old(Lefts(fds))[i := Some(Drop(old(fds[i].Rest()), size))]
  {
    b := fds[i].Read(size);
  }

  /** The state of the merge between two turns of the loop. */
  datatype Merge = Merge(left: seq<Option<Bytes>>, o: Out)

  function Now(fds: seq<Source?>, target: Target): Merge
    reads fds, target
  {
    Merge(Lefts(fds), target.State())
  }

  /** One turn: None when a present stripe is used up. */
  function Turned(m: Merge, i: nat, size: nat): Option<Merge>
    requires i < |m.left|
  {
    match m.left[i]
    case None => Some(Merge(m.left, Skip(m.o, size)))
    case Some(b) =>
      if Take(b, size) == [] then None
      else Some(Merge(m.left[i := Some(Drop(b, size))], Copy(m.o, Take(b, size))))
  }

  /** Turns of the loop from stripe `i` on, as long as it does not stop. */
  function AfterTurns(m: Merge, i: nat, size: nat, k: nat): Option<(Merge, nat)>
    requires i < |m.left|
    decreases k
  {
    if k == 0 then Some((m, i))
    else
      match Turned(m, i, size)
      case None => None
      case Some(m1) => AfterTurns(m1, Next(i, |m.left|), size, k - 1)
  }

  /** With every stripe missing the loop never stops by itself: however many turns it has made, it has
      only moved the position, until lseek refuses to go on. */
  lemma {:induction false} AllMissingGoesOn(m: Merge, i: nat, size: nat, k: nat)
    requires i < |m.left| && forall j :: 0 <= j < |m.left| ==> m.left[j].None?
    ensures var r := AfterTurns(m, i, size, k);
      r.Some? && r.value.0 == Merge(m.left, Out(m.o.t, m.o.pos + k * size))
    decreases k
  {
    if k > 0 {
      var m1 := Merge(m.left, Skip(m.o, size));
      AllMissingGoesOn(m1, Next(i, |m.left|), size, k - 1);
      assert m.o.pos + size + (k - 1) * size == m.o.pos + k * size;
    }
  }

  lemma TurnedCollect(m: Merge, size: nat, i: nat, p: nat)
    requires size > 0 && i < |m.left| && p < |m.left| && m.left[p].Some?
    ensures Turned(m, i, size).None? ==> Collect(m.left, size, i, m.o, p) == m.o.t
    ensures Turned(m, i, size).Some? ==>
      var m1 := Turned(m, i, size).value;
      && |m1.left| == |m.left| && m1.left[p].Some?
      && Collect(m1.left, size, Next(i, |m.left|), m1.o, p) == Collect(m.left, size, i, m.o, p)
  {
  }

  lemma TurnedShrinks(m: Merge, size: nat, i: nat, p: nat)
    requires size > 0 && i < |m.left| && p < |m.left| && m.left[p].Some? && Turned(m, i, size).Some?
    ensures var m1 := Turned(m, i, size).value;
      || Unread(m1.left) < Unread(m.left)
      || (m1.left == m.left && Ahead(Next(i, |m.left|), p, |m.left|) < Ahead(i, p, |m.left|))
  {
    if m.left[i].Some? {
      ReadingShrinks(m.left, i, Drop(m.left[i].value, size));
    }
  }

  method CopyChunk(target: Target, fds: seq<Source?>, i: nat, size: nat) returns (more: bool)
    requires i < |fds| && Separate(fds)
    modifies target, fds
    ensures more <==> Turned(old(Now(fds, target)), i, size).Some?
    ensures more ==> Turned(old(Now(fds, target)), i, size) == Some(Now(fds, target))
    ensures !more ==> target.data == old(target.data)
  {
    if fds[i] == null {
      ghost var left := Lefts(fds);
      target.Seek(size);
      assert Lefts(fds) == left;
      return true;
    }
    var r := ReadFrom(fds, i, size);
    if r == [] {
      return false;
    }
    ghost var left := Lefts(fds);
    target.Write(r);
    assert Lefts(fds) == left;
    return true;
  }

  /** generate_file_coalesce. Stripe `p` is one that is not missing. */
  method GenerateCoalesced(target: Target, fds: seq<Source?>, size: nat, ghost p: nat)
    requires size > 0 && p < |fds| && fds[p] != null && Separate(fds)
    modifies target, fds
    ensures target.data == Collect(old(Lefts(fds)), size, 0, old(target.State()), p)
  {
    var i := 0;
    ghost var m := Now(fds, target);
    ghost var goal := Collect(m.left, size, 0, m.o, p);
    var more := true;
    while more
      invariant 0 <= i < |fds| == |m.left| && m.left[p].Some?
      invariant more ==> m == Now(fds, target) && Collect(m.left, size, i, m.o, p) == goal
      invariant !more ==> target.data == goal
      decreases more, Unread(m.left), Ahead(i, p, |fds|)
    {
      TurnedCollect(m, size, i, p);
      more := CopyChunk(target, fds, i, size);
      if more {
        TurnedShrinks(m, size, i, p);
        NextIsModulo(i, |fds|);
        m := Now(fds, target);
        i := (i + 1) % |fds|;
      }
    }
  }

  // ---- the traditional format --------------------------------------------------------

  const BLOCK: nat := 4096

  /** The unread parts of the stripes, with nothing for a missing one: its reads fail. */
  function Rows(fds: seq<Source?>): (r: seq<Bytes>)
    reads fds
    ensures |r| == |fds| && forall j :: 0 <= j < |fds| ==> r[j] == if fds[j] == null then [] else fds[j].Rest()
  {
    seq(|fds|, j requires 0 <= j < |fds| reads fds => if fds[j] == null then [] else fds[j].Rest())
  }

  /** A buffer cleared and then filled with `b`. */
  function Padded(b: Bytes): (r: Bytes)
    requires |b| <= BLOCK
    ensures |r| == BLOCK && forall k :: 0 <= k < BLOCK ==> r[k] == ByteAt(b, k)
  {
    seq(BLOCK, k requires 0 <= k < BLOCK => ByteAt(b, k))
  }

  /** `buf` holds the next block of each stripe. */
  predicate Blocks(buf: seq<Bytes>, rows: seq<Bytes>) {
    |buf| == |rows| && forall j :: 0 <= j < |buf| ==> |buf[j]| == BLOCK && buf[j] == Padded(Take(rows[j], BLOCK))
  }

  method ReadRow(fds: seq<Source?>, i: nat) returns (r: Bytes)
    requires i < |fds| && Separate(fds)
    modifies fds
    ensures r == Take(old(Rows(fds))[i], BLOCK)
    ensures Rows(fds) == old(Rows(fds))[i := Drop(old(Rows(fds))[i], BLOCK)]
  {
    r := [];
    if fds[i] != null {
      r := fds[i].Read(BLOCK);
    }
  }

  /** The first `i` stripes have been read one block further. */
  predicate Advanced(rows: seq<Bytes>, i: nat, now: seq<Bytes>) {
    |now| == |rows| && forall j :: 0 <= j < |rows| ==> now[j] == if j < i then Drop(rows[j], BLOCK) else rows[j]
  }

  lemma BlocksSnoc(buf: seq<Bytes>, rows: seq<Bytes>, i: nat)
    requires i < |rows| && Blocks(buf, rows[..i])
    ensures Blocks(buf + [Padded(Take(rows[i], BLOCK))], rows[..i + 1])
    ensures Longest(rows[..i + 1]) == if |rows[i]| > Longest(rows[..i]) then |rows[i]| else Longest(rows[..i])
  {
    assert rows[..i + 1][..i] == rows[..i] && rows[..i + 1][i] == rows[i];
  }

  lemma AdvancedAll(rows: seq<Bytes>, now: seq<Bytes>)
    requires Advanced(rows, |rows|, now)
    ensures now == DropAll(rows, BLOCK) && rows[..|rows|] == rows
  {
  }

  lemma AdvancedOne(rows: seq<Bytes>, i: nat, now: seq<Bytes>)
    requires i < |rows| && Advanced(rows, i, now)
    ensures now[i] == rows[i] && Advanced(rows, i + 1, now[i := Drop(now[i], BLOCK)])
  {
  }

  /** The first inner loop: one block from each stripe. */
  method ReadBlocks(fds: seq<Source?>, ghost rows: seq<Bytes>) returns (buf: seq<Bytes>, maxRet: nat)
    requires Separate(fds) && rows == Rows(fds)
    modifies fds
    ensures Blocks(buf, rows) && Rows(fds) == DropAll(rows, BLOCK)
    ensures maxRet == Min(Longest(rows), BLOCK)
  {
    buf, maxRet := [], 0;
    ghost var now := rows;
    for i := 0 to |fds|
      invariant now == Rows(fds) && Advanced(rows, i, now)
      invariant Blocks(buf, rows[..i]) && maxRet == Min(Longest(rows[..i]), BLOCK)
    {
      AdvancedOne(rows, i, now);
      BlocksSnoc(buf, rows, i);
      var r := ReadRow(fds, i);
      now := now[i := Drop(now[i], BLOCK)];
      if |r| > maxRet {
        maxRet := |r|;
      }
      buf := buf + [Padded(r)];
    }
    AdvancedAll(rows, now);
  }

  lemma OrAtBlocks(buf: seq<Bytes>, rows: seq<Bytes>, k: nat)
    requires Blocks(buf, rows) && k < BLOCK
    ensures OrAt(buf, k) == OrAt(rows, k)
  {
    if rows != [] {
      OrAtBlocks(buf[..|buf| - 1], rows[..|rows| - 1], k);
    }
  }

  /** The second: the buffers OR-ed together. */
  method OrBlocks(buf: seq<Bytes>, maxRet: nat) returns (block: Bytes)
    requires maxRet <= BLOCK && forall j :: 0 <= j < |buf| ==> |buf[j]| == BLOCK
    ensures block == OrUpTo(buf, maxRet)
  {
    var newbuf := new bv8[BLOCK](_ => 0);
    for i := 0 to maxRet
      invariant forall k :: 0 <= k < i ==> newbuf[k] == OrAt(buf, k)
      invariant forall k :: i <= k < BLOCK ==> newbuf[k] == 0
    {
      for j := 0 to |buf|
        invariant newbuf[i] == OrAt(buf[..j], i)
        invariant forall k :: 0 <= k < i ==> newbuf[k] == OrAt(buf, k)
        invariant forall k :: i < k < BLOCK ==> newbuf[k] == 0
      {
        assert buf[..j + 1][..j] == buf[..j];
        newbuf[i] := newbuf[i] | buf[j][i];
      }
      assert buf[..|buf|] == buf;
    }
    block := newbuf[..maxRet];
  }

  lemma OrBlock(buf: seq<Bytes>, rows: seq<Bytes>, len: nat)
    requires Blocks(buf, rows) && len <= BLOCK
    ensures OrUpTo(buf, len) == OrUpTo(rows, len)
  {
    forall k | 0 <= k < len ensures OrAt(buf, k) == OrAt(rows, k) {
      OrAtBlocks(buf, rows, k);
    }
  }

  /** The state of the merge between two blocks. */
  datatype Progress = Progress(rows: seq<Bytes>, o: Out)

  function Reached(fds: seq<Source?>, target: Target): Progress
    reads fds, target
  {
    Progress(Rows(fds), target.State())
  }

  function BlockDone(m: Progress): Progress {
    Progress(DropAll(m.rows, BLOCK), Copy(m.o, OrUpTo(m.rows, Min(Longest(m.rows), BLOCK))))
  }

  lemma BlockDoneMerged(m: Progress)
    ensures Longest(m.rows) > 0 ==>
      var m1 := BlockDone(m);
      && Merged(m1.rows, BLOCK, m1.o) == Merged(m.rows, BLOCK, m.o)
      && Longest(m1.rows) < Longest(m.rows)
    ensures Longest(m.rows) == 0 ==> BlockDone(m).o == m.o == Merged(m.rows, BLOCK, m.o)
  {
    LongestDrop(m.rows, BLOCK);
  }

  /** One turn of the outer loop. */
  method MergeBlock(target: Target, fds: seq<Source?>, ghost m: Progress) returns (maxRet: nat)
    requires Separate(fds) && m == Reached(fds, target)
    modifies target, fds
    ensures maxRet == Min(Longest(m.rows), BLOCK) && Reached(fds, target) == BlockDone(m)
  {
    var buf;
    buf, maxRet := ReadBlocks(fds, m.rows);
    var newbuf := OrBlocks(buf, maxRet);
    OrBlock(buf, m.rows, maxRet);
    target.Write(newbuf);
    assert Rows(fds) == DropAll(m.rows, BLOCK);
  }

  method MergeAll(target: Target, fds: seq<Source?>, ghost start: Progress)
    requires Separate(fds) && start == Reached(fds, target)
    modifies target, fds
    ensures target.State() == Merged(start.rows, BLOCK, start.o)
  {
    ghost var m, goal := start, Merged(start.rows, BLOCK, start.o);
    var maxRet := 1;
    while maxRet != 0
      invariant m == Reached(fds, target)
      invariant maxRet != 0 ==> Merged(m.rows, BLOCK, m.o) == goal
      invariant maxRet == 0 ==> m.o == goal
      decreases maxRet != 0, Longest(m.rows)
    {
      BlockDoneMerged(m);
      maxRet := MergeBlock(target, fds, m);
      m := BlockDone(m);
    }
  }

  /** generate_file_traditional: the stripes OR-ed together, up to the end of the longest. */
  method GenerateTraditional(target: Target, fds: seq<Source?>)
    requires Separate(fds)
    modifies target, fds
    ensures target.State() == Copy(old(target.State()), OrAll(old(Rows(fds))))
  {
    ghost var m := Reached(fds, target);
    MergedIsOr(m.rows, BLOCK, m.o);
    MergeAll(target, fds, m);
  }
}
