/**
  The directory stream of api/src/glfs-fops.c: glfd_entry_next, glfd_entry_refresh, glfs_telldir
  and glfs_seekdir on a directory handle that buffers a segment of the listing.
 */
module DirStream {
  import opened Wrappers

  /** A directory entry; `off` is d_off, the offset to go on from after it. */
  datatype Entry = Entry(name: string, off: int)

  /** What the graph answers to a readdir: an error, or at most `count` more entries. */
  datatype Reply = Fails | Batch(count: nat)

  datatype Op = Readdir(reply: Reply) | Telldir | Seekdir(off: int)

  datatype Outcome = Got(entry: Entry) | End | Failed | Told(off: int) | Sought

  /** A fixed directory: offsets are distinct, and 0 is the beginning. */
  ghost predicate Listing(entries: seq<Entry>) {
    && (forall i :: 0 <= i < |entries| ==> entries[i].off != 0)
    && (forall i, j :: 0 <= i < j < |entries| ==> entries[i].off != entries[j].off)
  }

  /** The offset that stands for position `pos` of the listing. */
  function Cookie(listing: seq<Entry>, pos: nat): int
    requires pos <= |listing|
  {
    if pos == 0 then 0 else listing[pos - 1].off
  }

  lemma CookieUnique(listing: seq<Entry>, a: nat, b: nat)
    requires Listing(listing) && a <= |listing| && b <= |listing| && Cookie(listing, a) == Cookie(listing, b)
    ensures a == b
  {
  }

  // ---- the reference: a cursor over the whole listing --------------------------------

  /** From position `pos`, the outcomes are those of a cursor without a buffer. A failed read, which
      needs a failing reply, leaves the cursor where it is. */
  ghost predicate Agrees(listing: seq<Entry>, pos: nat, ops: seq<Op>, outs: seq<Outcome>)
    decreases |ops|
  {
    && pos <= |listing| && |outs| == |ops|
    && (ops != [] ==> exists next: nat ::
          Step(listing, pos, ops[0], outs[0], next) && Agrees(listing, next, ops[1..], outs[1..]))
  }

  ghost predicate Step(listing: seq<Entry>, pos: nat, op: Op, out: Outcome, next: nat)
    requires pos <= |listing|
  {
    match op
    case Readdir(reply) =>
      || (out == Failed && reply.Fails? && next == pos)
      || (pos < |listing| && out == Got(listing[pos]) && next == pos + 1)
      || (pos == |listing| && out == End && next == pos)
    case Telldir => out == Told(Cookie(listing, pos)) && next == pos
    case Seekdir(off) => out == Sought && next <= |listing| && Cookie(listing, next) == off
  }

  /** Seeks go to the beginning or to an offset of the listing, as every telldir value is. */
  ghost predicate Proper(listing: seq<Entry>, op: Op) {
    op.Seekdir? ==> exists pos: nat :: pos <= |listing| && Cookie(listing, pos) == op.off
  }

  // ---- the graph ---------------------------------------------------------------------

  /** The entries after offset `off`. */
  function After(listing: seq<Entry>, off: int): seq<Entry> {
    if off == 0 || listing == [] then listing
    else if listing[0].off == off then listing[1..]
    else After(listing[1..], off)
  }

  lemma {:induction false} AfterCookie(listing: seq<Entry>, pos: nat)
    requires Listing(listing) && pos <= |listing|
    ensures After(listing, Cookie(listing, pos)) == listing[pos..]
  {
    if pos > 1 {
      AfterCookie(listing[1..], pos - 1);
    }
  }

  /** What readdir returns from offset `off`: at most `count` entries, and none only at the end. */
  function Served(listing: seq<Entry>, off: int, count: nat): seq<Entry> {
    var rest := After(listing, off);
    if count >= |rest| then rest else if count == 0 then rest[..1] else rest[..count]
  }

  lemma ServedAt(listing: seq<Entry>, pos: nat, count: nat)
    requires Listing(listing) && pos <= |listing|
    ensures var r := Served(listing, Cookie(listing, pos), count);
      && pos + |r| <= |listing| && r == listing[pos..pos + |r|] && (r == [] <==> pos == |listing|)
  {
    AfterCookie(listing, pos);
  }

  // ---- the buffered stream -----------------------------------------------------------

  class Stream {
    const listing: seq<Entry>      // the directory; the handle sees it only through replies
    var offset: int
    var entries: seq<Entry>
    var next: Option<nat>          // index into entries
    ghost var pos: nat             // the position that offset stands for
    ghost var start: nat           // where entries begins in the listing

    /** The buffer is a segment of the listing, and `next` the entry at the position. */
    ghost predicate Buffered()
      reads this
    {
      && Listing(listing)
      && pos <= |listing| && offset == Cookie(listing, pos)
      && start + |entries| <= |listing| && entries == listing[start..start + |entries|]
      && (next.Some? ==> next.value < |entries| && start + next.value == pos)
    }

    /** Between calls: at the beginning there is never a next entry at hand. */
    ghost predicate Valid()
      reads this
    {
      Buffered() && (offset == 0 ==> next.None?)
    }

    constructor (directory: seq<Entry>)
      requires Listing(directory)
      ensures Valid() && pos == 0 && listing == directory
    {
      listing := directory;
      offset, entries, next, pos, start := 0, [], None, 0, 0;
    }

    /** glfd_entry_refresh: the new entries replace the old ones; `next` moves only if there are any. */
    method Refresh(reply: Reply) returns (ret: int)
      requires Valid() && next.None?
      modifies this
      ensures Buffered() && pos == old(pos) && offset == old(offset)
      ensures ret < 0 <==> reply.Fails?
      ensures ret < 0 ==> next.None? && entries == old(entries) && start == old(start)
      ensures ret >= 0 ==> (next.Some? <==> pos < |listing|)
    {
      if reply.Fails? {
        return -1;
      }
      var batch := Served(listing, offset, reply.count);
      ServedAt(listing, pos, reply.count);
      entries := batch;
      start := pos;
      if |batch| > 0 {
        next := Some(0);
      }
      return |batch|;
    }

    /** glfd_entry_next. */
    method EntryNext(reply: Reply) returns (out: Outcome)
      requires Valid()
      modifies this
      ensures Valid() && Step(listing, old(pos), Readdir(reply), out, pos)
    {
      if offset == 0 || next.None? {
        var ret := Refresh(reply);
        if ret < 0 {
          return Failed;
        }
      }
      if next.None? {
        return End;
      }
      var entry := entries[next.value];
      assert entry == listing[pos];
      if next.value + 1 == |entries| {
        next := None;
      } else {
        next := Some(next.value + 1);
      }
      offset := entry.off;
      pos := pos + 1;
      return Got(entry);
    }

    /** glfs_telldir. */
    method Tell() returns (off: int)
      requires Valid()
      ensures Step(listing, pos, Telldir, Told(off), pos)
    {
      return offset;
    }

    /** glfs_seekdir: the buffer stays, and is used again if it holds the entry after `off`. */
    method Seek(off: int, ghost target: nat)
      requires Valid() && target <= |listing| && Cookie(listing, target) == off
      modifies this
      ensures Valid() && pos == target
    {
      if offset == off {
        CookieUnique(listing, pos, target);
        return;
      }
      offset := off;
      pos := target;
      next := None;
      for i := 0 to |entries|
        invariant Valid() && pos == target && offset == off && next.None?
        invariant entries == old(entries)
      {
        if entries[i].off != off {
          continue;
        }
        if i + 1 < |entries| {
          assert Cookie(listing, start + i + 1) == off;
          CookieUnique(listing, start + i + 1, target);
          next := Some(i + 1);
          return;
        }
      }
    }

    method Perform(op: Op) returns (out: Outcome)
      requires Valid() && Proper(listing, op)
      modifies this
      ensures Valid() && Step(listing, old(pos), op, out, pos)
    {
      match op
      case Readdir(reply) => out := EntryNext(reply);
      case Telldir =>
        var off := Tell();
        out := Told(off);
      case Seekdir(off) =>
        ghost var target: nat :| target <= |listing| && Cookie(listing, target) == off;
        Seek(off, target);
        out := Sought;
    }
  }

  lemma AgreesCons(listing: seq<Entry>, pos: nat, next: nat, op: Op, out: Outcome, ops: seq<Op>, outs: seq<Outcome>)
    requires pos <= |listing| && Step(listing, pos, op, out, next) && Agrees(listing, next, ops, outs)
    ensures Agrees(listing, pos, [op] + ops, [out] + outs)
  {
    assert ([op] + ops)[1..] == ops && ([out] + outs)[1..] == outs;
  }

  /** Any sequence of calls on the stream, whatever the batches, has the outcomes of the plain cursor. */
  method Run(stream: Stream, ops: seq<Op>) returns (outs: seq<Outcome>)
    requires stream.Valid() && forall i :: 0 <= i < |ops| ==> Proper(stream.listing, ops[i])
    modifies stream
    ensures stream.Valid() && Agrees(stream.listing, old(stream.pos), ops, outs)
    decreases |ops|
  {
    if ops == [] {
      return [];
    }
    ghost var before := stream.pos;
    var out := stream.Perform(ops[0]);
    ghost var after := stream.pos;
    var rest := Run(stream, ops[1..]);
    AgreesCons(stream.listing, before, after, ops[0], out, ops[1..], rest);
    assert [ops[0]] + ops[1..] == ops;
    outs := [out] + rest;
  }

  // ---- what agreement means ----------------------------------------------------------

  /** The outcomes and the position are determined by the calls, unless a reply fails. */
  lemma StepDetermined(listing: seq<Entry>, pos: nat, op: Op, op2: Op, out: Outcome, out2: Outcome, next: nat,
                       next2: nat)
    requires Listing(listing) && pos <= |listing| && SameCall(op, op2)
    requires Step(listing, pos, op, out, next) && Step(listing, pos, op2, out2, next2)
    ensures out == out2 && next == next2
  {
    if op.Seekdir? {
      CookieUnique(listing, next, next2);
    }
  }

  /** The same call, where readdir succeeds but may be answered in other batches. */
  predicate SameCall(op: Op, op2: Op) {
    match op
    case Readdir(reply) => op2.Readdir? && reply.Batch? && op2.reply.Batch?
    case Telldir => op2.Telldir?
    case Seekdir(off) => op2 == op
  }

  /** How the graph cuts the listing into batches makes no difference to the caller. */
  lemma {:induction false} BatchesDoNotMatter(listing: seq<Entry>, pos: nat,
      ops: seq<Op>, ops2: seq<Op>, outs: seq<Outcome>, outs2: seq<Outcome>)
    requires Listing(listing) && |ops| == |ops2| && forall i :: 0 <= i < |ops| ==> SameCall(ops[i], ops2[i])
    requires Agrees(listing, pos, ops, outs) && Agrees(listing, pos, ops2, outs2)
    ensures outs == outs2
    decreases |ops|
  {
    if ops != [] {
      var next: nat :| Step(listing, pos, ops[0], outs[0], next) && Agrees(listing, next, ops[1..], outs[1..]);
      var next2: nat :| Step(listing, pos, ops2[0], outs2[0], next2) && Agrees(listing, next2, ops2[1..], outs2[1..]);
      StepDetermined(listing, pos, ops[0], ops2[0], outs[0], outs2[0], next, next2);
      BatchesDoNotMatter(listing, next, ops[1..], ops2[1..], outs[1..], outs2[1..]);
      assert outs == [outs[0]] + outs[1..] && outs2 == [outs2[0]] + outs2[1..];
    }
  }

  function Entries(outs: seq<Outcome>): seq<Entry> {
    if outs == [] then [] else (if outs[0].Got? then [outs[0].entry] else []) + Entries(outs[1..])
  }

  /** Reading on until the end, over any failures, gives the rest of the listing, each entry once. */
  lemma {:induction false} ReadsWholeListing(listing: seq<Entry>, pos: nat, ops: seq<Op>, outs: seq<Outcome>)
    requires Agrees(listing, pos, ops, outs) && (forall i :: 0 <= i < |ops| ==> ops[i].Readdir?)
    requires outs != [] && outs[|outs| - 1] == End
    ensures Entries(outs) == listing[pos..]
    decreases |ops|
  {
    var next: nat :| Step(listing, pos, ops[0], outs[0], next) && Agrees(listing, next, ops[1..], outs[1..]);
    if |outs| == 1 {
      assert outs[1..] == [];
    } else {
      assert outs[1..][|outs| - 2] == End;
      ReadsWholeListing(listing, next, ops[1..], outs[1..]);
    }
  }
}
