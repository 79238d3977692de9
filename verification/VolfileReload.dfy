/**
  Printing what load has read: everything load accepts can be read back but for one thing, a
  translator without a type line.
 */
module VolfileReload {
  import opened Wrappers
  import opened VolText
  import opened Volfile
  import opened VolfileOrder
  import opened VolfileRoundTrip

  /** Printable but for a type that may be missing. */
  predicate NearlyPrintable<X>(n: Node<X>) {
    Word(n.name) && (n.typ == "" || Word(n.typ)) && GoodOptions(n.opts)
  }

  predicate GoodOptions(opts: seq<(string, string)>) {
    DistinctKeys(opts) && forall i :: 0 <= i < |opts| ==> Word(opts[i].0) && Normal(opts[i].1)
  }

  // ---- what load accepts -------------------------------------------------------------

  predicate HasKey(opts: seq<(string, string)>, k: string) {
    exists i :: 0 <= i < |opts| && opts[i].0 == k
  }

  lemma {:induction false} PutKeys(opts: seq<(string, string)>, k: string, v: string, j: string)
    ensures HasKey(Put(opts, k, v), j) <==> j == k || HasKey(opts, j)
  {
    var r := Put(opts, k, v);
    if opts == [] || opts[0].0 == k {
      assert r[0].0 == k;
      if HasKey(r, j) && j != k {
        var i :| 0 <= i < |r| && r[i].0 == j;
        assert opts[i] == r[i];
      }
      if HasKey(opts, j) && j != k {
        var i :| 0 <= i < |opts| && opts[i].0 == j;
        assert r[i] == opts[i];
      }
    } else {
      var rest := Put(opts[1..], k, v);
      PutKeys(opts[1..], k, v, j);
      KeySplit(opts, j);
      assert r[1..] == rest && r[0] == opts[0];
      KeySplit(r, j);
    }
  }

  lemma KeySplit(opts: seq<(string, string)>, j: string)
    requires opts != []
    ensures HasKey(opts, j) <==> opts[0].0 == j || HasKey(opts[1..], j)
  {
    if HasKey(opts, j) && opts[0].0 != j {
      var i :| 0 <= i < |opts| && opts[i].0 == j;
      assert opts[1..][i - 1] == opts[i];
    }
    if HasKey(opts[1..], j) {
      var i :| 0 <= i < |opts[1..]| && opts[1..][i].0 == j;
      assert opts[i + 1] == opts[1..][i];
    }
  }

  lemma GoodOptionsCons(o: (string, string), rest: seq<(string, string)>)
    ensures GoodOptions([o] + rest)
      <==> Word(o.0) && Normal(o.1) && !HasKey(rest, o.0) && GoodOptions(rest)
  {
    var all := [o] + rest;
    assert all[0] == o && forall i :: 0 <= i < |rest| ==> all[i + 1] == rest[i];
    if GoodOptions(all) {
      forall i, j | 0 <= i < j < |rest| ensures rest[i].0 != rest[j].0 {
        assert all[i + 1].0 != all[j + 1].0;
      }
      forall i | 0 <= i < |rest| ensures rest[i].0 != o.0 {
        assert all[0].0 != all[i + 1].0;
      }
    }
    if Word(o.0) && Normal(o.1) && !HasKey(rest, o.0) && GoodOptions(rest) {
      forall i, j | 0 <= i < j < |all| ensures all[i].0 != all[j].0 {
        assert all[j] == rest[j - 1];
        if i > 0 {
          assert all[i] == rest[i - 1];
        }
      }
    }
  }

  /** Setting an option to joined words keeps the options good. */
  lemma {:induction false} PutGood(opts: seq<(string, string)>, k: string, v: string)
    requires GoodOptions(opts) && Word(k) && Normal(v)
    ensures GoodOptions(Put(opts, k, v))
  {
    if opts == [] {
      GoodOptionsCons((k, v), []);
      assert [(k, v)] + [] == [(k, v)];
    } else {
      assert opts == [opts[0]] + opts[1..];
      GoodOptionsCons(opts[0], opts[1..]);
      if opts[0].0 == k {
        GoodOptionsCons((k, v), opts[1..]);
      } else {
        PutGood(opts[1..], k, v);
        PutKeys(opts[1..], k, v, opts[0].0);
        GoodOptionsCons(opts[0], Put(opts[1..], k, v));
      }
    }
  }

  predicate AllNearly(r: Reading) {
    && (forall k :: 0 <= k < |r.nodes| ==> NearlyPrintable(r.nodes[k]))
    && (r.cur.Some? ==> NearlyPrintable(r.cur.value))
  }

  lemma JoinedNormal(ws: seq<string>)
    requires forall i :: 0 <= i < |ws| ==> Word(ws[i])
    ensures Normal(Join(ws))
  {
    SplitOfJoin(ws);
  }

  lemma WordsNearly(r: Reading, text: seq<string>)
    requires AllNearly(r) && text != [] && (forall i :: 0 <= i < |text| ==> Word(text[i])) && ReadWords(r, text).Ok?
    ensures AllNearly(ReadWords(r, text).value)
  {
    if KeywordOf(text[0]).KOption? {
      JoinedNormal(text[2..]);
      PutGood(r.cur.value.opts, text[1], Join(text[2..]));
    }
  }

  lemma {:induction false} ReadNearly(r: Reading, lines: seq<string>)
    requires AllNearly(r) && ReadLines(r, lines).Ok?
    ensures AllNearly(ReadLines(r, lines).value)
  {
    if lines != [] {
      var init, line := lines[..|lines| - 1], lines[|lines| - 1];
      ReadNearly(r, init);
      SplitGivesWords(line);
      if Split(line) != [] {
        WordsNearly(ReadLines(r, init).value, Split(line));
      }
    }
  }

  /** Every translator that load returns is printable, but for a type that may be missing. */
  lemma LoadedIsNearlyPrintable(lines: seq<string>, k: nat)
    requires Load(lines).Ok? && k < |Load(lines).value.nodes|
    ensures NearlyPrintable(Load(lines).value.nodes[k])
  {
    ReadNearly(NOTHING_READ, lines);
  }

  // ---- a missing type ----------------------------------------------------------------

  function TypeText(typ: string): string {
    INDENT + "type " + typ
  }

  lemma MissingTypeSplits()
    ensures Split(TypeText("")) == ["type"] && KeywordOf("type") == KType
  {
    assert TypeText("") == INDENT + ("type" + " " + "");
    SplitIndent("type" + " " + "");
    SplitFirst("type", "");
  }

  /** A type line without a type stops load wherever it stands. */
  lemma {:induction false} MissingTypeStops(r: Reading, lines: seq<string>, i: nat)
    requires i < |lines| && lines[i] == TypeText("")
    ensures ReadLines(r, lines).Err?
  {
    var init := lines[..|lines| - 1];
    if i < |lines| - 1 {
      assert init[i] == lines[i];
      MissingTypeStops(r, init, i);
    } else {
      MissingTypeSplits();
    }
  }

  /** Where line `i` of a block is in the text that the blocks make up. */
  lemma {:induction false} LineIn(blocks: seq<seq<string>>, k: nat, i: nat) returns (at: nat)
    requires k < |blocks| && i < |blocks[k]|
    ensures at < |Flatten(blocks)| && Flatten(blocks)[at] == blocks[k][i]
    decreases k
  {
    if k == 0 {
      at := i;
    } else {
      var rest := LineIn(blocks[1..], k - 1, i);
      at := |blocks[0]| + rest;
    }
  }

  lemma {:induction false} BlockOf<X>(g: map<X, Node<X>>, order: seq<X>, k: nat)
    requires Closed(g) && (forall i :: 0 <= i < |order| ==> order[i] in g) && k < |order|
    ensures k < |Blocks(g, order)| && Blocks(g, order)[k] == StanzaOf(g, order[k]) + [""]
    decreases k
  {
    if k > 0 {
      var rest := order[1..];
      assert rest[k - 1] == order[k];
      BlockOf(g, rest, k - 1);
      assert Blocks(g, order)[k] == Blocks(g, rest)[k - 1];
    }
  }

  lemma TypeLineOf<X>(g: map<X, Node<X>>, x: X)
    requires Closed(g) && x in g
    ensures |StanzaOf(g, x)| > 1 && StanzaOf(g, x)[1] == TypeText(g[x].typ)
  {
  }

  lemma TypeLineInText<X>(g: map<X, Node<X>>, order: seq<X>, k: nat) returns (at: nat)
    requires Closed(g) && (forall i :: 0 <= i < |order| ==> order[i] in g) && k < |order|
    ensures at < |Text(g, order)| && Text(g, order)[at] == TypeText(g[order[k]].typ)
  {
    TypeLineOf(g, order[k]);
    BlockOf(g, order, k);
    at := LineIn(Blocks(g, order), k, 1);
  }

  /** The type line of every printed translator is in the text. */
  lemma TypeLineIn<X>(g: map<X, Node<X>>, rank: map<X, nat>, top: X, x: X) returns (at: nat)
    requires Ranked(g, rank) && Closed(g) && top in g && x in g && x in Emit(g, rank, top, {})
    ensures at < |Generated(g, rank, top)| && Generated(g, rank, top)[at] == TypeText(g[x].typ)
  {
    var init := EmitSubs(g, rank, top, |g[top].subs|, {});
    EmitSubsGood(g, rank, top, |g[top].subs|, {});
    var text, last := Text(g, init), StanzaOf(g, top);
    assert Generated(g, rank, top) == text + last && Emit(g, rank, top, {}) == init + [top];
    TypeLineOf(g, x);
    if x in init {
      var k :| 0 <= k < |init| && init[k] == x;
      at := TypeLineInText(g, init, k);
    } else {
      at := |text| + 1;
    }
  }

  // ---- when it reloads ---------------------------------------------------------------

  /** Every translator that generate prints has a type. */
  ghost predicate AllTyped<X>(g: map<X, Node<X>>, rank: map<X, nat>, top: X)
    requires Ranked(g, rank) && top in g
  {
    forall x :: x in g && Reaches(g, rank, top, x) ==> g[x].typ != ""
  }

  lemma TypedReloads<X>(g: map<X, Node<X>>, rank: map<X, nat>, top: X)
    requires Ranked(g, rank) && Closed(g) && top in g && DistinctNames(g) && AllTyped(g, rank, top)
    requires forall x :: x in g ==> NearlyPrintable(g[x])
    ensures Load(Generated(g, rank, top)).Ok?
  {
    var order := Emit(g, rank, top, {});
    GenerateOrder(g, rank, top);
    forall k | 0 <= k < |order| ensures order[k] in g && Printable(g[order[k]]) {
      assert order[k] in order;
    }
    var r := ReloadPrinted(g, rank, top);
  }

  lemma UntypedStops<X>(g: map<X, Node<X>>, rank: map<X, nat>, top: X, x: X)
    requires Ranked(g, rank) && Closed(g) && top in g && x in g && Reaches(g, rank, top, x) && g[x].typ == ""
    ensures Load(Generated(g, rank, top)).Err?
  {
    GenerateOrder(g, rank, top);
    var at := TypeLineIn(g, rank, top, x);
    MissingTypeStops(NOTHING_READ, Generated(g, rank, top), at);
  }

  /** A graph with distinct names that is printable but for missing types can be printed and read back
      if and only if no translator reachable from the top misses its type. */
  lemma ReloadsIffTyped<X>(g: map<X, Node<X>>, rank: map<X, nat>, top: X)
    requires Ranked(g, rank) && Closed(g) && top in g && DistinctNames(g)
    requires forall x :: x in g ==> NearlyPrintable(g[x])
    ensures Load(Generated(g, rank, top)).Ok? <==> AllTyped(g, rank, top)
  {
    if AllTyped(g, rank, top) {
      TypedReloads(g, rank, top);
    } else {
      var x :| x in g && Reaches(g, rank, top, x) && g[x].typ == "";
      UntypedStops(g, rank, top, x);
    }
  }

  /** So of a file that load accepts, with distinct names. */
  lemma LoadedReloads(lines: seq<string>) returns (g: map<nat, Node<nat>>, rank: map<nat, nat>, top: nat)
    requires Load(lines).Ok? && Load(lines).value.nodes != []
    ensures forall k :: k in g <==> 0 <= k < |Load(lines).value.nodes|
    ensures forall k :: k in g ==> g[k] == Load(lines).value.nodes[k]
    ensures top == |Load(lines).value.nodes| - 1 && Ranked(g, rank) && Closed(g)
    ensures DistinctNames(g) ==> (Load(Generated(g, rank, top)).Ok? <==> AllTyped(g, rank, top))
  {
    g, rank := LoadedIsAcyclic(lines);
    top := |Load(lines).value.nodes| - 1;
    forall x | x in g ensures NearlyPrintable(g[x]) {
      LoadedIsNearlyPrintable(lines, x);
    }
    if DistinctNames(g) {
      ReloadsIffTyped(g, rank, top);
    }
  }

  /** A concrete case: a volume without a type line loads, and what is printed for it does not. */
  lemma UntypedVolume()
    ensures var lines := ["volume a", "end-volume"];
      var g := map[0 := Node("a", "", [], [])];
      && Load(lines).Ok? && Load(lines).value.nodes == [g[0]]
      && Ranked(g, map[0 := 0]) && Load(Generated(g, map[0 := 0], 0)).Err?
  {
    var g: map<nat, Node<nat>> := map[0 := Node("a", "", [], [])];
    var r := NOTHING_READ.(cur := Some(g[0]));
    VolumeLine(NOTHING_READ, "a");
    assert "volume " + "a" == "volume a";
    EndLine(r);
    ReadAppend(NOTHING_READ, ["volume a"], ["end-volume"]);
    assert ["volume a"] + ["end-volume"] == ["volume a", "end-volume"];
    UntypedStops(g, map[0 := 0], 0, 0);
  }
}
