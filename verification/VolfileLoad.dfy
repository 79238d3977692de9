/**
  load on Translator objects: the objects it creates are wired as the text says.
 */
module VolfileLoad {
  import opened Wrappers
  import opened Basics
  import opened VolText
  import opened Volfile
  import opened VolfileRoundTrip
  import opened VolfileHeap

  /** Object `x` is the translator `n`, whose subvolumes are positions in `objs`. */
  ghost predicate Wired(objs: seq<Translator>, x: Translator, n: Node<nat>)
    reads x
  {
    && x.name == n.name && x.typ == n.typ && x.opts == n.opts && !x.dumped
    && |x.subvols| == |n.subs|
    && (forall j :: 0 <= j < |n.subs| ==> n.subs[j] < |objs| && x.subvols[j] == objs[n.subs[j]])
  }

  /** The objects and the dictionary are what has been read. */
  ghost predicate Built(r: Reading, objs: seq<Translator>, all: map<string, Translator>)
    reads objs
  {
    && |objs| == |r.nodes|
    && NoDup(objs)
    && (forall k :: 0 <= k < |objs| ==> Wired(objs, objs[k], r.nodes[k]))
    && all.Keys == r.all.Keys
    && (forall s :: s in all ==> r.all[s] < |objs| && all[s] == objs[r.all[s]])
  }

  /** ... and so is the translator whose definition is open. */
  ghost predicate Open(r: Reading, objs: seq<Translator>, cur: Translator?)
    reads cur
  {
    && (cur == null <==> r.cur.None?)
    && (cur != null ==> Wired(objs, cur, r.cur.value) && cur !in objs)
  }

  lemma ErrStays(lines: seq<string>, i: nat)
    requires i <= |lines| && ReadLines(NOTHING_READ, lines[..i]).Err?
    ensures Load(lines).Err?
  {
    assert lines[..i] + lines[i..] == lines;
    ReadAppend(NOTHING_READ, lines[..i], lines[i..]);
  }

  /** The subvolumes line: append the named translators, or fail on an unknown name. */
  method AddSubvols(ghost r: Reading, ghost objs: seq<Translator>, all: map<string, Translator>,
                    cur: Translator, names: seq<string>) returns (ok: bool)
    requires Built(r, objs, all) && Open(r, objs, cur)
    modifies cur`subvols
    ensures ok <==> Lookup(r.all, names).Ok?
    ensures ok ==> Wired(objs, cur, r.cur.value.(subs := r.cur.value.subs + Lookup(r.all, names).value))
  {
    ghost var x := r.cur.value;
    ok := true;
    for i := 0 to |names|
      invariant Lookup(r.all, names[..i]).Ok?
      invariant Wired(objs, cur, x.(subs := x.subs + Lookup(r.all, names[..i]).value))
    {
      assert names[..i + 1][..i] == names[..i] && names[..i + 1][i] == names[i];
      if names[i] !in all {
        UnknownName(r.all, names, i + 1);
        return false;
      }
      ghost var ids := Lookup(r.all, names[..i]).value;
      ghost var q := r.all[names[i]];
      assert Lookup(r.all, names[..i + 1]) == Ok(ids + [q]);
      assert x.subs + (ids + [q]) == (x.subs + ids) + [q];
      cur.subvols := cur.subvols + [all[names[i]]];
    }
    assert names[..|names|] == names;
  }

  lemma {:induction false} UnknownName(all: map<string, nat>, names: seq<string>, i: nat)
    requires i <= |names| && Lookup(all, names[..i]).Err?
    ensures Lookup(all, names).Err?
    decreases |names| - i
  {
    if i == |names| {
      assert names[..i] == names;
    } else {
      assert names[..i + 1][..i] == names[..i];
      UnknownName(all, names, i + 1);
    }
  }

  /** One turn of the loop in load for a line that is not blank. */
  method TakeWords(ghost r: Reading, ghost objs: seq<Translator>, all: map<string, Translator>,
                   cur: Translator?, last: Translator?, text: seq<string>)
    returns (ok: bool, all': map<string, Translator>, cur': Translator?, last': Translator?,
             ghost objs': seq<Translator>)
    requires text != [] && Built(r, objs, all) && Open(r, objs, cur)
    modifies cur
    ensures ok <==> ReadWords(r, text).Ok?
    ensures ok ==> Built(ReadWords(r, text).value, objs', all') && Open(ReadWords(r, text).value, objs', cur')
    ensures cur' == null || cur' == cur || fresh(cur')
    ensures objs' == objs || (cur != null && objs' == objs + [cur])
    ensures last' == if objs' == objs then last else cur
  {
    ok, all', cur', last', objs' := false, all, cur, last, objs;
    var k := KeywordOf(text[0]);
    if k.KVolume? {
      if cur != null || |text| < 2 { return; }
      cur' := new Translator(text[1]);
      ok := true;
    } else if cur == null {
      return;
    } else if k.KType? {
      if |text| < 2 { return; }
      cur.typ := text[1];
      ok := true;
    } else if k.KOption? {
      if |text| < 2 { return; }
      cur.opts := Put(cur.opts, text[1], Join(text[2..]));
      ok := true;
    } else if k.KSubvolumes? {
      ok := AddSubvols(r, objs, all, cur, text[1..]);
    } else if k.KEnd? {
      all' := all[cur.name := cur];
      objs' := objs + [cur];
      cur', last' := null, cur;
      ok := true;
      EndBuilt(r, objs, all, cur);
    }
  }

  lemma EndBuilt(r: Reading, objs: seq<Translator>, all: map<string, Translator>, cur: Translator)
    requires Built(r, objs, all) && Open(r, objs, cur)
    ensures Built(Reading(r.nodes + [r.cur.value], r.all[r.cur.value.name := |r.nodes|], None),
                  objs + [cur], all[cur.name := cur])
  {
    var objs' := objs + [cur];
    var nodes := r.nodes + [r.cur.value];
    forall k | 0 <= k < |objs'| ensures Wired(objs', objs'[k], nodes[k]) {
      if k < |objs| {
        assert Wired(objs, objs[k], r.nodes[k]);
      }
    }
  }

  /** One turn of the loop for any line; a blank one changes nothing. */
  method TakeLine(ghost r: Reading, ghost objs: seq<Translator>, all: map<string, Translator>,
                  cur: Translator?, last: Translator?, line: string)
    returns (ok: bool, all': map<string, Translator>, cur': Translator?, last': Translator?,
             ghost objs': seq<Translator>)
    requires Built(r, objs, all) && Open(r, objs, cur)
    modifies cur
    ensures ok <==> ReadLine(r, line).Ok?
    ensures ok ==> Built(ReadLine(r, line).value, objs', all') && Open(ReadLine(r, line).value, objs', cur')
    ensures cur' == null || cur' == cur || fresh(cur')
    ensures objs' == objs || (cur != null && objs' == objs + [cur])
    ensures last' == if objs' == objs then last else cur
  {
    ok, all', cur', last', objs' := true, all, cur, last, objs;
    var text := Split(line);
    if text != [] {
      ok, all', cur', last', objs' := TakeWords(r, objs, all, cur, last, text);
    }
  }

  ghost predicate ReadSoFar(lines: seq<string>, i: nat, r: Reading)
    requires i <= |lines|
  {
    ReadLines(NOTHING_READ, lines[..i]) == Ok(r)
  }

  lemma ReadNext(lines: seq<string>, i: nat, r: Reading)
    requires i < |lines| && ReadSoFar(lines, i, r)
    ensures ReadLine(r, lines[i]).Ok? ==> ReadSoFar(lines, i + 1, ReadLine(r, lines[i]).value)
    ensures ReadLine(r, lines[i]).Err? ==> Load(lines).Err?
  {
    assert lines[..i + 1][..i] == lines[..i] && lines[..i + 1][i] == lines[i];
    if ReadLine(r, lines[i]).Err? {
      ErrStays(lines, i + 1);
    }
  }

  /** What load holds between two lines. */
  ghost predicate Loading(r: Reading, objs: seq<Translator>, all: map<string, Translator>, cur: Translator?,
                          last: Translator?)
    reads objs, cur
  {
    Built(r, objs, all) && Open(r, objs, cur) && last == if objs == [] then null else objs[|objs| - 1]
  }

  /** load(path): fails exactly when the text is malformed; otherwise it returns new objects,
      one per definition and wired as the text says, their dictionary, and the last one. */
  method LoadFile(lines: seq<string>)
    returns (ok: bool, all: map<string, Translator>, last: Translator?, ghost objs: seq<Translator>)
    ensures ok <==> Load(lines).Ok?
    ensures ok ==> Built(Load(lines).value, objs, all)
    ensures forall k :: 0 <= k < |objs| ==> fresh(objs[k])
    ensures last == if objs == [] then null else objs[|objs| - 1]
  {
    ok, all, last, objs := true, map[], null, [];
    var cur: Translator? := null;
    ghost var r := NOTHING_READ;
    assert lines[..0] == [];
    for i := 0 to |lines|
      invariant ReadSoFar(lines, i, r) && Loading(r, objs, all, cur, last)
      invariant cur == null || fresh(cur)
      invariant forall k :: 0 <= k < |objs| ==> fresh(objs[k])
    {
      ReadNext(lines, i, r);
      ok, all, cur, last, objs := TakeLine(r, objs, all, cur, last, lines[i]);
      if !ok {
        return;
      }
      r := ReadLine(r, lines[i]).value;
    }
    assert lines[..|lines|] == lines;
    ok := cur == null;
  }
}
