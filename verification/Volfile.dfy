/**
  Volfiles: the text of a translator graph, the parser (load) and the order in which the
  printer (generate) visits a graph whose children may be shared.

  An option dictionary is an association list in its iteration order. Translators of a graph
  are identified by values of a type X; translators that load creates are identified by their
  position in the file.
 */
module Volfile {
  import opened Wrappers
  import opened VolText

  datatype Node<X> = Node(name: string, typ: string, opts: seq<(string, string)>, subs: seq<X>)

  // ---- the text of one translator ----------------------------------------------------

  function OptionText(k: string, v: string): string {
    INDENT + "option " + k + " " + v
  }

  function OptLines(opts: seq<(string, string)>): seq<string> {
    if opts == [] then []
    else OptLines(opts[..|opts| - 1]) + [OptionText(opts[|opts| - 1].0, opts[|opts| - 1].1)]
  }

  function SubLine(names: seq<string>): seq<string> {
    if names == [] then [] else [INDENT + "subvolumes " + Join(names)]
  }

  function Stanza<X>(n: Node<X>, subNames: seq<string>): seq<string> {
    ["volume " + n.name] + [INDENT + "type " + n.typ] + OptLines(n.opts) + SubLine(subNames) + ["end-volume"]
  }

  predicate DistinctKeys(opts: seq<(string, string)>) {
    forall i, j :: 0 <= i < j < |opts| ==> opts[i].0 != opts[j].0
  }

  /** A translator whose text can be read back. */
  predicate Printable<X>(n: Node<X>) {
    && Word(n.name) && Word(n.typ) && DistinctKeys(n.opts)
    && (forall i :: 0 <= i < |n.opts| ==> Word(n.opts[i].0) && Normal(n.opts[i].1))
  }

  // ---- load --------------------------------------------------------------------------

  /** The parser between two lines: the translators read so far, all_xlators, and the
      translator whose definition is open. */
  datatype Reading = Reading(nodes: seq<Node<nat>>, all: map<string, nat>, cur: Option<Node<nat>>)

  const NOTHING_READ: Reading := Reading([], map[], None)

  /** opts[k] = v */
  function Put(opts: seq<(string, string)>, k: string, v: string): seq<(string, string)> {
    if opts == [] then [(k, v)]
    else if opts[0].0 == k then [(k, v)] + opts[1..]
    else [opts[0]] + Put(opts[1..], k, v)
  }

  /** The positions of the named translators; KeyError when one is unknown. */
  function Lookup(all: map<string, nat>, names: seq<string>): Result<seq<nat>> {
    if names == [] then Ok([])
    else if names[|names| - 1] !in all then Err
    else
      match Lookup(all, names[..|names| - 1])
      case Err => Err
      case Ok(ids) => Ok(ids + [all[names[|names| - 1]]])
  }

  datatype Keyword = KVolume | KType | KOption | KSubvolumes | KEnd | KOther

  function KeywordOf(word: string): Keyword {
    if word == "volume" then KVolume
    else if word == "type" then KType
    else if word == "option" then KOption
    else if word == "subvolumes" then KSubvolumes
    else if word == "end-volume" then KEnd
    else KOther
  }

  /** One turn of the loop in load, on the words of a line that is not blank. */
  function ReadWords(r: Reading, text: seq<string>): Result<Reading>
    requires text != []
  {
    var k := KeywordOf(text[0]);
    if k.KVolume? then
      if r.cur.Some? || |text| < 2 then Err else Ok(r.(cur := Some(Node(text[1], "", [], []))))
    else if r.cur.None? then Err
    else
      var x := r.cur.value;
      match k
      case KType => if |text| < 2 then Err else Ok(r.(cur := Some(x.(typ := text[1]))))
      case KOption =>
        if |text| < 2 then Err else Ok(r.(cur := Some(x.(opts := Put(x.opts, text[1], Join(text[2..]))))))
      case KSubvolumes => (
        match Lookup(r.all, text[1..])
        case Err => Err
        case Ok(ids) => Ok(r.(cur := Some(x.(subs := x.subs + ids)))))
      case KEnd => Ok(Reading(r.nodes + [x], r.all[x.name := |r.nodes|], None))
      case _ => Err
  }

  function ReadLine(r: Reading, line: string): Result<Reading> {
    if Split(line) == [] then Ok(r) else ReadWords(r, Split(line))
  }

  function ReadLines(r: Reading, lines: seq<string>): Result<Reading>
    decreases |lines|
  {
    if lines == [] then Ok(r)
    else
      match ReadLines(r, lines[..|lines| - 1])
      case Err => Err
      case Ok(r1) => ReadLine(r1, lines[|lines| - 1])
  }

  /** load: the translators in file order; the last one is the top of the graph. */
  function Load(lines: seq<string>): Result<Reading> {
    match ReadLines(NOTHING_READ, lines)
    case Err => Err
    case Ok(r) => if r.cur.Some? then Err else Ok(r)
  }

  // ---- generate ----------------------------------------------------------------------

  function Elems<X>(order: seq<X>): set<X> {
    set i | 0 <= i < |order| :: order[i]
  }

  /** Every translator's subvolumes are in the graph and rank lower. */
  ghost predicate Ranked<X>(g: map<X, Node<X>>, rank: map<X, nat>) {
    forall x :: x in g ==> x in rank && forall i :: 0 <= i < |g[x].subs| ==> Below(g, rank, g[x].subs[i], x)
  }

  ghost predicate Below<X>(g: map<X, Node<X>>, rank: map<X, nat>, y: X, x: X) {
    y in g && y in rank && x in rank && rank[y] < rank[x]
  }

  /** The translators generate(x) prints, in order, when those in `dumped` are done. */
  ghost function Emit<X>(g: map<X, Node<X>>, rank: map<X, nat>, x: X, dumped: set<X>): seq<X>
    requires Ranked(g, rank) && x in g
    decreases rank[x], 1, 0
  {
    EmitSubs(g, rank, x, |g[x].subs|, dumped) + [x]
  }

  /** The same for the first `n` subvolumes of `x`. */
  ghost function EmitSubs<X>(g: map<X, Node<X>>, rank: map<X, nat>, x: X, n: nat, dumped: set<X>): seq<X>
    requires Ranked(g, rank) && x in g && n <= |g[x].subs|
    decreases rank[x], 0, n
  {
    if n == 0 then []
    else
      var before := EmitSubs(g, rank, x, n - 1, dumped);
      var sv := g[x].subs[n - 1];
      assert Below(g, rank, sv, x);
      if sv in dumped + Elems(before) then before
      else before + Emit(g, rank, sv, dumped + Elems(before))
  }

  function NamesOf<X>(g: map<X, Node<X>>, xs: seq<X>): (r: seq<string>)
    requires forall i :: 0 <= i < |xs| ==> xs[i] in g
    ensures |r| == |xs| && forall i :: 0 <= i < |xs| ==> r[i] == g[xs[i]].name
  {
    if xs == [] then [] else [g[xs[0]].name] + NamesOf(g, xs[1..])
  }

  ghost predicate Closed<X>(g: map<X, Node<X>>) {
    forall x :: x in g ==> forall i :: 0 <= i < |g[x].subs| ==> g[x].subs[i] in g
  }

  ghost function StanzaOf<X>(g: map<X, Node<X>>, x: X): seq<string>
    requires Closed(g) && x in g
  {
    Stanza(g[x], NamesOf(g, g[x].subs))
  }

  /** The stanzas of `order`, each followed by a blank line. */
  ghost function Text<X>(g: map<X, Node<X>>, order: seq<X>): seq<string>
    requires Closed(g) && forall i :: 0 <= i < |order| ==> order[i] in g
  {
    Flatten(Blocks(g, order))
  }

  ghost function Blocks<X>(g: map<X, Node<X>>, order: seq<X>): seq<seq<string>>
    requires Closed(g) && forall i :: 0 <= i < |order| ==> order[i] in g
  {
    if order == [] then [] else [StanzaOf(g, order[0]) + [""]] + Blocks(g, order[1..])
  }

  function Flatten(blocks: seq<seq<string>>): seq<string> {
    if blocks == [] then [] else blocks[0] + Flatten(blocks[1..])
  }
}
