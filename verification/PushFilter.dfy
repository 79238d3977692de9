/**
  push_filter of volfilter.py and of prot_filter.py, which differ in how they name the two
  translators and in what they have done when a type without a "/" stops them.
 */
module PushFilter {
  import opened Wrappers
  import opened Volfile
  import opened VolfileHeap
  import opened Filters

  // ---- names -------------------------------------------------------------------------

  function BeforeSlash(t: string): string {
    if t == "" || t[0] == '/' then "" else [t[0]] + BeforeSlash(t[1..])
  }

  /** t.split("/")[1], or None for the IndexError. */
  function Second(t: string): Option<string> {
    if t == "" then None
    else if t[0] == '/' then Some(BeforeSlash(t[1..]))
    else Second(t[1..])
  }

  predicate Typed(t: string) {
    Second(t).Some?
  }

  function Suffix(t: string): string
    requires Typed(t)
  {
    "-" + Second(t).value
  }

  /** volfilter.py: the name without the suffix of its type, if it is longer than that. */
  function Base(name: string, suffix: string): string {
    if |name| > |suffix| && name[|name| - |suffix|..] == suffix then name[..|name| - |suffix|] else name
  }

  /** str.find */
  function Find(s: string, pat: string): (r: Option<nat>)
    ensures r.Some? ==> r.value + |pat| <= |s| && s[r.value..r.value + |pat|] == pat
  {
    if pat <= s then Some(0)
    else if s == "" then None
    else
      match Find(s[1..], pat)
      case None => None
      case Some(i) => Some(i + 1)
  }

  /** prot_filter.py: the names of the moved translator and of the filter. */
  function ProtNames(name: string, typ: string, filter: string): (string, string)
    requires Typed(typ) && Typed(filter)
  {
    match Find(name, Suffix(typ))
    case Some(pos) => (name, name[..pos] + Suffix(filter) + name[pos + |Suffix(typ)|..])
    case None => (name + Suffix(typ), name + Suffix(filter))
  }

  // ---- push_filter -------------------------------------------------------------------

  /** Object `x` became the filter; the new object `y` is what `x` was, under another name. */
  ghost predicate Filtered(n: Node<Translator>, x: Translator, y: Translator, newName: string, filter: Node<Translator>)
    reads x, y
  {
    y.View() == n.(name := newName) && x.View() == filter.(subs := [y])
  }

  /** Then the objects show the graph with the filter pushed. */
  lemma FilteredShows(g: map<Translator, Node<Translator>>, x: Translator, y: Translator, newName: string,
                      filter: Node<Translator>)
    requires x in g && y !in g && Filtered(g[x], x, y, newName, filter)
    requires forall z :: z in g && z != x ==> z.View() == g[z]
    ensures Shows(Pushed(g, x, y, newName, filter))
  {
  }

  function VolNames(name: string, typ: string, filter: string): (string, string)
    requires Typed(typ) && Typed(filter)
  {
    var base := Base(name, Suffix(typ));
    (base + Suffix(typ), base + Suffix(filter))
  }

  /** volfilter.push_filter. A translator type without a "/" stops it before anything happens, a filter
      type without one when the new translator is in the dictionary and the old one has lost its suffix. */
  method VolPushFilter(graph: map<string, Translator>, oldXl: Translator, filter: string, opts: seq<(string, string)>)
    returns (ok: bool, graph': map<string, Translator>, newXl: Translator)
    modifies oldXl
    ensures ok <==> old(Typed(oldXl.typ)) && Typed(filter)
    ensures ok ==>
      var (newName, name) := old(VolNames(oldXl.name, oldXl.typ, filter));
      && fresh(newXl)
      && Filtered(old(oldXl.View()), oldXl, newXl, newName, Node(name, filter, opts, []))
      && graph' == graph[newName := newXl][name := oldXl]
    ensures old(!Typed(oldXl.typ)) ==> graph' == graph && oldXl.View() == old(oldXl.View())
    ensures old(Typed(oldXl.typ)) && !Typed(filter) ==>
      var suffix := old(Suffix(oldXl.typ));
      var base := old(Base(oldXl.name, suffix));
      && fresh(newXl)
      && newXl.View() == old(oldXl.View()).(name := base + suffix)
      && oldXl.View() == old(oldXl.View()).(name := base)
      && graph' == graph[base + suffix := newXl]
  {
    graph', newXl := graph, oldXl;
    var kind, filterKind := Second(oldXl.typ), Second(filter);
    ok := kind.Some? && filterKind.Some?;
    if kind.None? { return; }
    var suffix := "-" + kind.value;
    ghost var base := Base(oldXl.name, suffix);
    if |oldXl.name| > |suffix| {
      if oldXl.name[|oldXl.name| - |suffix|..] == suffix {
        oldXl.name := oldXl.name[..|oldXl.name| - |suffix|];
      }
    }
    assert oldXl.name == base;
    newXl := new Translator(oldXl.name + suffix);
    newXl.typ, newXl.opts, newXl.subvols := oldXl.typ, oldXl.opts, oldXl.subvols;
    graph' := graph'[newXl.name := newXl];
    if filterKind.None? { return; }
    oldXl.name := oldXl.name + ("-" + filterKind.value);
    oldXl.typ, oldXl.opts, oldXl.subvols := filter, opts, [newXl];
    graph' := graph'[oldXl.name := oldXl];
  }

  /** prot_filter.push_filter. Either type without a "/" stops it before anything happens. */
  method ProtPushFilter(graph: map<string, Translator>, oldXl: Translator, filter: string)
    returns (ok: bool, graph': map<string, Translator>, newXl: Translator)
    modifies oldXl
    ensures ok <==> old(Typed(oldXl.typ)) && Typed(filter)
    ensures !ok ==> graph' == graph && oldXl.View() == old(oldXl.View())
    ensures ok ==>
      var (newName, name) := old(ProtNames(oldXl.name, oldXl.typ, filter));
      && fresh(newXl)
      && Filtered(old(oldXl.View()), oldXl, newXl, newName, Node(name, filter, [], []))
      && graph' == graph[newName := newXl][name := oldXl]
  {
    graph', newXl := graph, oldXl;
    ok := Typed(filter) && Typed(oldXl.typ);
    if !ok { return; }
    var (newName, name) := ProtNames(oldXl.name, oldXl.typ, filter);
    newXl := new Translator(newName);
    newXl.typ, newXl.opts, newXl.subvols := oldXl.typ, oldXl.opts, oldXl.subvols;
    graph' := graph[newName := newXl];
    oldXl.name, oldXl.typ, oldXl.opts, oldXl.subvols := name, filter, [], [newXl];
    graph' := graph'[name := oldXl];
  }
}
