/**
  Registering commands (cli_cmd_newword, cli_cmd_ingest and cli_cmd_register of
  cli/src/registry.c): the tree of words that they build, and what later registrations leave alone.
 */
module CommandTree {
  import opened Wrappers
  import opened Template
  import opened Tokens
  import opened Registry

  /** The words after each word. */
  type Kids = map<Word, seq<Word>>

  ghost predicate Closed(kids: Kids) {
    forall w, i :: w in kids && 0 <= i < |kids[w]| ==> kids[w][i] in kids
  }

  /** Sibling words are distinct, and none is empty. */
  ghost predicate Siblings(kids: Kids) {
    && (forall w, i, j :: w in kids && 0 <= i < j < |kids[w]| ==> kids[w][i].word != kids[w][j].word)
    && (forall w, i :: w in kids && 0 <= i < |kids[w]| ==> kids[w][i].word != "")
  }

  /** Words are one level below the word before them. */
  ghost predicate Levels(kids: Kids, depth: map<Word, nat>) {
    && depth.Keys == kids.Keys
    && (forall w, i :: w in kids && 0 <= i < |kids[w]| && kids[w][i] in kids ==> depth[kids[w][i]] == depth[w] + 1)
  }

  /** The word after `w` that is exactly `s`. */
  function Child(choices: seq<Word>, s: string): (r: Option<Word>)
    ensures r.Some? ==> r.value in choices
  {
    if choices == [] then None
    else if choices[0].word == s then Some(choices[0])
    else Child(choices[1..], s)
  }

  /** The word that a path of full words leads to. */
  ghost function Walk(kids: Kids, w: Word, path: seq<string>): Option<Word>
    requires Closed(kids) && w in kids
    decreases |path|
  {
    if path == [] then Some(w)
    else
      match Child(kids[w], path[0])
      case None => None
      case Some(c) => Walk(kids, c, path[1..])
  }

  /** A path of possibly abbreviated words leads from `w` to `target`: a cli_cmd_nextword each. */
  ghost predicate Follows(kids: Kids, w: Word, path: seq<string>, target: Word)
    requires Closed(kids) && w in kids
    decreases |path|
  {
    if path == [] then w == target
    else exists i: nat :: Selects(path[0], kids[w], i) && Follows(kids, kids[w][i], path[1..], target)
  }

  /** The tree after cli_cmd_newword. */
  function Added(kids: Kids, w: Word, n: Word): Kids
    requires w in kids
  {
    kids[w := kids[w] + [n]][n := []]
  }

  // ---- what adding a word keeps ------------------------------------------------------

  lemma AddedClosed(kids: Kids, depth: map<Word, nat>, w: Word, n: Word)
    requires Closed(kids) && Siblings(kids) && Levels(kids, depth) && w in kids && n !in kids
    requires n.word != "" && forall i :: 0 <= i < |kids[w]| ==> kids[w][i].word != n.word
    ensures Closed(Added(kids, w, n)) && Siblings(Added(kids, w, n))
    ensures Levels(Added(kids, w, n), depth[n := depth[w] + 1])
  {
  }

  lemma {:induction false} ChildAppend(choices: seq<Word>, n: Word, s: string)
    requires Child(choices, s).Some?
    ensures Child(choices + [n], s) == Child(choices, s)
  {
    if choices[0].word != s {
      ChildAppend(choices[1..], n, s);
      assert (choices + [n])[1..] == choices[1..] + [n];
    }
  }

  /** A path of full words still leads to the same word. */
  lemma {:induction false} AddedKeepsWalk(kids: Kids, w: Word, n: Word, x: Word, path: seq<string>)
    requires w in kids && n !in kids && x in kids && Closed(kids) && Closed(Added(kids, w, n))
    requires Walk(kids, x, path).Some?
    ensures Walk(Added(kids, w, n), x, path) == Walk(kids, x, path)
    decreases |path|
  {
    if path != [] {
      var c := Child(kids[x], path[0]).value;
      if x == w {
        ChildAppend(kids[x], n, path[0]);
      }
      AddedKeepsWalk(kids, w, n, c, path[1..]);
    }
  }

  /** Nor does a path change that ends at the word that gets a new one after it. */
  lemma {:induction false} AddedKeepsFollows(kids: Kids, depth: map<Word, nat>, w: Word, n: Word, x: Word,
                                             path: seq<string>)
    requires w in kids && n !in kids && x in kids && Closed(kids) && Closed(Added(kids, w, n)) && Levels(kids, depth)
    requires Follows(kids, x, path, w) && depth[x] + |path| == depth[w]
    ensures Follows(Added(kids, w, n), x, path, w)
    decreases |path|
  {
    if path != [] {
      var i: nat :| Selects(path[0], kids[x], i) && Follows(kids, kids[x][i], path[1..], w);
      AddedKeepsFollows(kids, depth, w, n, kids[x][i], path[1..]);
      assert Added(kids, w, n)[x] == kids[x];
    }
  }

  lemma {:induction false} FollowsOn(kids: Kids, x: Word, path: seq<string>, w: Word, s: string, i: nat)
    requires Closed(kids) && x in kids && w in kids && Follows(kids, x, path, w) && Selects(s, kids[w], i)
    ensures Follows(kids, x, path + [s], kids[w][i])
    decreases |path|
  {
    if path == [] {
      assert ([] + [s])[1..] == [] && ([] + [s])[0] == s;
      assert path + [s] == [s];
      assert Follows(kids, kids[w][i], [s][1..], kids[w][i]);
    } else {
      var k: nat :| Selects(path[0], kids[x], k) && Follows(kids, kids[x][k], path[1..], w);
      FollowsOn(kids, kids[x][k], path[1..], w, s, i);
      assert (path + [s])[1..] == path[1..] + [s] && (path + [s])[0] == path[0];
    }
  }

  lemma {:induction false} ChildIsExact(choices: seq<Word>, s: string) returns (i: nat)
    requires Child(choices, s).Some?
    ensures Exact(s, choices, i) && choices[i] == Child(choices, s).value
  {
    if choices[0].word == s {
      i := 0;
    } else {
      var k := ChildIsExact(choices[1..], s);
      i := k + 1;
    }
  }

  /** Full words are looked up as themselves: an abbreviation never gets in the way. */
  lemma {:induction false} WalkIsFollowed(kids: Kids, w: Word, path: seq<string>)
    requires Closed(kids) && w in kids && Walk(kids, w, path).Some? && forall i :: 0 <= i < |path| ==> path[i] != ""
    ensures Follows(kids, w, path, Walk(kids, w, path).value)
    decreases |path|
  {
    if path != [] {
      var i := ChildIsExact(kids[w], path[0]);
      WalkIsFollowed(kids, kids[w][i], path[1..]);
      assert Selects(path[0], kids[w], i);
    }
  }

  lemma {:induction false} FollowsOnce(kids: Kids, w: Word, path: seq<string>, a: Word, b: Word)
    requires Closed(kids) && w in kids && Follows(kids, w, path, a) && Follows(kids, w, path, b)
    ensures a == b
    decreases |path|
  {
    if path != [] {
      var i: nat :| Selects(path[0], kids[w], i) && Follows(kids, kids[w][i], path[1..], a);
      var j: nat :| Selects(path[0], kids[w], j) && Follows(kids, kids[w][j], path[1..], b);
      SelectsOne(path[0], kids[w], i, j);
      FollowsOnce(kids, kids[w][i], path[1..], a, b);
    }
  }

  lemma ExactAppend(tok: string, choices: seq<Word>, n: Word, i: nat)
    requires i < |choices|
    ensures Exact(tok, choices + [n], i) == Exact(tok, choices, i)
  {
    assert forall j :: 0 <= j < |choices| ==> choices[j] == (choices + [n])[j];
  }

  /** An abbreviation goes on selecting the same word when another is added after it if and only if
      it is a full word or does not begin the new one. */
  lemma AbbreviationSurvives(tok: string, choices: seq<Word>, n: Word, i: nat)
    requires Selects(tok, choices, i)
    ensures Selects(tok, choices + [n], i) <==> choices[i].word == tok || !(tok <= n.word)
  {
    var more := choices + [n];
    assert i < |choices|;
    if choices[i].word == tok {
      var k := FirstExact(tok, choices, i);
      assert Exact(tok, choices, i);
      ExactAppend(tok, choices, n, i);
    } else if tok <= n.word {
      assert more[|choices|] == n && !OnlyPrefix(tok, more, i) && !Exact(tok, more, i);
    } else {
      assert forall k :: 0 <= k < |more| ==> more[k].word != tok by {
        forall k | 0 <= k < |more| ensures more[k].word != tok {
          if k < |choices| && choices[k].word == tok {
            var e := FirstExact(tok, choices, k);
          }
        }
      }
      assert OnlyPrefix(tok, more, i);
    }
  }

  /** A concrete case: "st" selects "start" until "stop" is registered, and then no word at all. */
  lemma AbbreviationLost(start: Word, stop: Word)
    requires start.word == "start" && stop.word == "stop"
    ensures Selects("st", [start], 0) && forall i: nat :: !Selects("st", [start] + [stop], i)
  {
    assert "st" <= start.word && "st" <= stop.word;
    var both := [start] + [stop];
    assert both[0] == start && both[1] == stop;
    forall i: nat ensures !Exact("st", both, i) && !Exact("st", [start], i) && !OnlyPrefix("st", both, i) {
    }
  }

  /** Every path of full words that leads somewhere in `before` leads to the same word in `after`. */
  ghost predicate Stable(before: Kids, after: Kids, root: Word)
    requires Closed(before) && Closed(after) && root in before && root in after
  {
    && before.Keys <= after.Keys
    && forall path :: Walk(before, root, path).Some? ==> Walk(after, root, path) == Walk(before, root, path)
  }

  lemma AddedStable(before: Kids, kids: Kids, root: Word, w: Word, n: Word)
    requires w in kids && n !in kids && root in before && root in kids
    requires Closed(before) && Closed(kids) && Closed(Added(kids, w, n)) && Stable(before, kids, root)
    ensures Stable(before, Added(kids, w, n), root)
  {
    forall path | Walk(before, root, path).Some?
      ensures Walk(Added(kids, w, n), root, path) == Walk(before, root, path)
    {
      AddedKeepsWalk(kids, w, n, root, path);
    }
  }

  lemma StableTwice(a: Kids, b: Kids, c: Kids, root: Word)
    requires Closed(a) && Closed(b) && Closed(c) && root in a && root in b && root in c
    requires Stable(a, b, root) && Stable(b, c, root)
    ensures Stable(a, c, root)
  {
  }

  // ---- the tree ----------------------------------------------------------------------

  /** The leading words of a template, up to its first divider. */
  function Leading(tokens: seq<string>): (r: seq<string>)
    requires forall i :: 0 <= i < |tokens| ==> tokens[i] != ""
    ensures r <= tokens && forall i :: 0 <= i < |r| ==> r[i] != ""
  {
    if tokens == [] || !IsWordChar(tokens[0][0]) then [] else [tokens[0]] + Leading(tokens[1..])
  }

  lemma {:induction false} LeadingAt(tokens: seq<string>, i: nat)
    requires forall k :: 0 <= k < |tokens| ==> tokens[k] != ""
    requires i <= |tokens| && forall k :: 0 <= k < i ==> IsWordChar(tokens[k][0])
    requires i < |tokens| ==> !IsWordChar(tokens[i][0])
    ensures Leading(tokens) == tokens[..i]
    decreases i
  {
    if i > 0 {
      LeadingAt(tokens[1..], i - 1);
      assert tokens[..i] == [tokens[0]] + tokens[1..][..i - 1];
    }
  }

  /** The tree as a value: the words after each word, their levels, and their commands. */
  datatype Shape = Shape(kids: Kids, depth: map<Word, nat>, commands: map<Word, Option<Command>>)

  ghost predicate Sound(s: Shape, root: Word) {
    && root in s.kids && s.depth.Keys == s.kids.Keys == s.commands.Keys && s.depth[root] == 0
    && Closed(s.kids) && Siblings(s.kids) && Levels(s.kids, s.depth)
  }

  /** The tree after cli_cmd_newword. */
  function WithNew(s: Shape, w: Word, n: Word): Shape
    requires w in s.kids && w in s.depth
  {
    Shape(Added(s.kids, w, n), s.depth[n := s.depth[w] + 1], s.commands[n := None])
  }

  /** Commands of earlier words are as before, and new words have none. */
  ghost predicate CommandsKept(before: map<Word, Option<Command>>, now: map<Word, Option<Command>>) {
    forall w :: w in now ==> now[w] == if w in before then before[w] else None
  }

  /** A registration that began with `before` has come along `path` to `word`. */
  ghost predicate Going(before: Shape, s: Shape, root: Word, path: seq<string>, word: Word) {
    && Sound(before, root) && Sound(s, root) && word in s.kids
    && Follows(s.kids, root, path, word) && s.depth[word] == |path|
    && Stable(before.kids, s.kids, root) && CommandsKept(before.commands, s.commands)
  }

  lemma GoesToFound(before: Shape, s: Shape, root: Word, path: seq<string>, word: Word, token: string, i: nat)
    requires Going(before, s, root, path, word) && Selects(token, s.kids[word], i)
    ensures Going(before, s, root, path + [token], s.kids[word][i])
  {
    FollowsOn(s.kids, root, path, word, token, i);
  }

  lemma SoundWithNew(s: Shape, root: Word, w: Word, n: Word)
    requires Sound(s, root) && w in s.kids && n !in s.kids && n.word != ""
    requires forall k: nat :: !Selects(n.word, s.kids[w], k)
    ensures Sound(WithNew(s, w, n), root)
  {
    forall i | 0 <= i < |s.kids[w]| ensures s.kids[w][i].word != n.word {
      NotExact(n.word, s.kids[w], i);
    }
    AddedClosed(s.kids, s.depth, w, n);
  }

  lemma FollowsToNew(s: Shape, root: Word, path: seq<string>, w: Word, n: Word)
    requires Sound(s, root) && w in s.kids && n !in s.kids && n.word != "" && Sound(WithNew(s, w, n), root)
    requires Follows(s.kids, root, path, w) && s.depth[w] == |path|
    ensures Follows(WithNew(s, w, n).kids, root, path + [n.word], n)
  {
    var kids, last := Added(s.kids, w, n), |s.kids[w]|;
    AddedKeepsFollows(s.kids, s.depth, w, n, root, path);
    assert kids[w][last] == n;
    forall i | 0 <= i < last ensures kids[w][i].word != n.word {
      assert kids[w][i].word != kids[w][last].word;
    }
    assert Exact(n.word, kids[w], last);
    FollowsOn(kids, root, path, w, n.word, last);
  }

  lemma GoesToNew(before: Shape, s: Shape, root: Word, path: seq<string>, w: Word, n: Word)
    requires Going(before, s, root, path, w) && n !in s.kids && n.word != ""
    requires forall k: nat :: !Selects(n.word, s.kids[w], k)
    ensures Going(before, WithNew(s, w, n), root, path + [n.word], n)
  {
    SoundWithNew(s, root, w, n);
    FollowsToNew(s, root, path, w, n);
    AddedStable(before.kids, s.kids, root, w, n);
  }

  /** A command line of full words goes on meaning the same word, and only that. */
  lemma FullWordsKeepMeaning(before: Kids, after: Kids, root: Word, path: seq<string>, target: Word)
    requires Closed(before) && Closed(after) && root in before && root in after && Stable(before, after, root)
    requires Walk(before, root, path).Some? && forall i :: 0 <= i < |path| ==> path[i] != ""
    ensures Follows(after, root, path, target) <==> Walk(before, root, path) == Some(target)
  {
    WalkIsFollowed(after, root, path);
    if Follows(after, root, path, target) {
      FollowsOnce(after, root, path, target, Walk(after, root, path).value);
    }
  }

  // ---- a registration as a run -------------------------------------------------------

  datatype Point = Point(s: Shape, word: Word)

  /** One token of a registration: on to the word it selects, or to a new one. */
  ghost predicate Step(a: Point, token: string, b: Point) {
    && a.word in a.s.kids && a.word in a.s.depth
    && (|| (b.s == a.s && exists i: nat :: Selects(token, a.s.kids[a.word], i) && b.word == a.s.kids[a.word][i])
        || ((forall i: nat :: !Selects(token, a.s.kids[a.word], i))
            && b.word !in a.s.kids && b.word.word == token && b.s == WithNew(a.s, a.word, b.word)))
  }

  ghost predicate Run(points: seq<Point>, path: seq<string>) {
    |points| == |path| + 1 && forall k :: 0 <= k < |path| ==> Step(points[k], path[k], points[k + 1])
  }

  lemma StepGoes(before: Shape, a: Point, root: Word, path: seq<string>, token: string, b: Point)
    requires Going(before, a.s, root, path, a.word) && Step(a, token, b) && token != ""
    ensures Going(before, b.s, root, path + [token], b.word)
  {
    if b.s == a.s && exists i: nat :: Selects(token, a.s.kids[a.word], i) && b.word == a.s.kids[a.word][i] {
      var i: nat :| Selects(token, a.s.kids[a.word], i) && b.word == a.s.kids[a.word][i];
      GoesToFound(before, a.s, root, path, a.word, token, i);
    } else {
      GoesToNew(before, a.s, root, path, a.word, b.word);
    }
  }

  /** What every registration keeps, at each of its steps. */
  lemma {:induction false} RunGoes(points: seq<Point>, root: Word, path: seq<string>, k: nat)
    requires Run(points, path) && k <= |path| && points[0].word == root && Sound(points[0].s, root)
    requires forall i :: 0 <= i < |path| ==> path[i] != ""
    ensures Going(points[0].s, points[k].s, root, path[..k], points[k].word)
    decreases k
  {
    if k > 0 {
      RunGoes(points, root, path, k - 1);
      assert path[..k] == path[..k - 1] + [path[k - 1]];
      StepGoes(points[0].s, points[k - 1], root, path[..k - 1], path[k - 1], points[k]);
    }
  }

  lemma RunOn(points: seq<Point>, path: seq<string>, k: nat, b: Point)
    requires k < |path| && Run(points, path[..k]) && Step(points[k], path[k], b)
    ensures Run(points + [b], path[..k + 1])
  {
  }

  ghost function WithCommand(s: Shape, word: Word, cmd: Command): Shape {
    Shape(s.kids, s.depth, s.commands[word := Some(cmd)])
  }

  /** What a registration does to the tree: `word` is where `path` leads and has the command, no other
      word changes its command, and every path of full words leads where it led before. */
  ghost predicate Ingested(before: Shape, s: Shape, root: Word, path: seq<string>, word: Word, cmd: Command) {
    && Sound(before, root) && Sound(s, root) && word in s.kids
    && Follows(s.kids, root, path, word) && s.commands[word] == Some(cmd)
    && CommandsKept(before.commands[word := Some(cmd)], s.commands) && Stable(before.kids, s.kids, root)
  }

  lemma RunIngests(points: seq<Point>, root: Word, path: seq<string>, cmd: Command)
    requires Run(points, path) && points[0].word == root && Sound(points[0].s, root)
    requires forall i :: 0 <= i < |path| ==> path[i] != ""
    ensures var last := points[|path|];
      && last.word in last.s.kids && last.s.commands.Keys == last.s.kids.Keys
      && Ingested(points[0].s, WithCommand(last.s, last.word, cmd), root, path, last.word, cmd)
  {
    RunGoes(points, root, path, |path|);
    assert path[..|path|] == path;
  }

  class Tree {
    const root: Word
    ghost var s: Shape

    /** The words are linked as `s` says. */
    ghost predicate Shown()
      reads this, s.kids.Keys
    {
      s.commands.Keys == s.kids.Keys
      && forall w :: w in s.kids ==> w.nextwords == s.kids[w] && w.command == s.commands[w]
    }

    ghost predicate Valid()
      reads this, s.kids.Keys
    {
      Sound(s, root) && Shown()
    }

    constructor ()
      ensures Valid() && fresh(root) && s == Shape(map[root := []], map[root := 0], map[root := None])
    {
      root := new Word("");
      new;
      s := Shape(map[root := []], map[root := 0], map[root := None]);
    }

    /** cli_cmd_newword. */
    method NewWord(w: Word, token: string) returns (n: Word)
      requires Shown() && w in s.kids && w in s.depth
      modifies this, w`nextwords
      ensures Shown() && fresh(n) && n.word == token && s == WithNew(old(s), w, n)
    {
      n := new Word(token);
      w.nextwords := w.nextwords + [n];
      s := WithNew(s, w, n);
    }

    /** The next word of a registration: an existing one or a new one. */
    method NextOrNew(w: Word, token: string) returns (next: Word)
      requires Shown() && w in s.kids && w in s.depth
      modifies this, w`nextwords
      ensures Shown() && Step(Point(old(s), w), token, Point(s, next))
      ensures s.kids.Keys == old(s).kids.Keys || (fresh(next) && s.kids.Keys == old(s).kids.Keys + {next})
    {
      var found := GetUnamb(token, w.nextwords);
      if found.Some? {
        next := found.value;
      } else {
        next := NewWord(w, token);
      }
    }

    /** cli_cmd_ingest, up to the word that gets the command. */
    method WalkIn(tokens: array<Option<string>>, ghost ss: seq<string>) returns (word: Word, ghost points: seq<Point>)
      requires Valid() && |ss| < tokens.Length && Holds(tokens, ss) && forall i :: 0 <= i < |ss| ==> ss[i] != ""
      modifies this, s.kids.Keys
      ensures Shown() && Run(points, Leading(ss))
      ensures points[0] == Point(old(s), root) && points[|points| - 1] == Point(s, word)
      ensures fresh(s.kids.Keys - old(s).kids.Keys)
    {
      word := root;
      var i := 0;
      points := [Point(s, root)];
      ghost var keys := s.kids.Keys;
      while tokens[i].Some? && IsWordChar(tokens[i].value[0])
        invariant 0 <= i <= |ss| && forall k :: 0 <= k < i ==> IsWordChar(ss[k][0])
        invariant Shown() && Run(points, ss[..i]) && points[0] == Point(old(s), root) && points[i] == Point(s, word)
        invariant fresh(s.kids.Keys - keys)
        decreases |ss| - i
      {
        assert word in s.kids && word in s.depth by {
          RunGoes(points, root, ss[..i], i);
        }
        word := NextOrNew(word, tokens[i].value);
        RunOn(points, ss, i, Point(s, word));
        points := points + [Point(s, word)];
        i := i + 1;
      }
      LeadingAt(ss, i);
    }

    /** cli_cmd_ingest: the word that the leading words lead to gets the command, no other word
        changes its command, and every path of full words leads where it led before. */
    method Ingest(tokens: array<Option<string>>, ghost ss: seq<string>, cmd: Command) returns (word: Word)
      requires Valid() && |ss| < tokens.Length && Holds(tokens, ss) && forall i :: 0 <= i < |ss| ==> ss[i] != ""
      modifies this, s.kids.Keys
      ensures Shown() && fresh(s.kids.Keys - old(s).kids.Keys) && Ingested(old(s), s, root, Leading(ss), word, cmd)
    {
      ghost var points;
      word, points := WalkIn(tokens, ss);
      RunIngests(points, root, Leading(ss), cmd);
      SetCommand(word, cmd);
    }

    method SetCommand(word: Word, cmd: Command)
      requires Shown() && word in s.kids
      modifies this, word`command
      ensures Shown() && s == WithCommand(old(s), word, cmd)
    {
      word.command := Some(cmd);
      s := WithCommand(s, word, cmd);
    }

    /** cli_cmd_register, for a command that is enabled. */
    method Register(cmd: Command) returns (ok: bool, word: Word)
      requires Valid()
      modifies this, s.kids.Keys
      ensures Shown() && fresh(s.kids.Keys - old(s).kids.Keys) && (ok <==> Derived(cmd.pattern))
      ensures !ok ==> s == old(s)
      ensures ok ==> Ingested(old(s), s, root, LeadingOf(cmd.pattern), word, cmd)
    {
      var tokens;
      ok, tokens := Tokenize(cmd.pattern);
      word := root;
      if ok {
        NoEmptyToken(cmd.pattern);
        word := Ingest(tokens, TokensOf(cmd.pattern), cmd);
      }
    }
  }

  lemma NoEmptyToken(t: string)
    ensures forall i :: 0 <= i < |TokensOf(t)| ==> TokensOf(t)[i] != ""
  {
    forall i | 0 <= i < |TokensOf(t)| ensures TokensOf(t)[i] != "" {
      TokensAreTokens(t, i);
    }
  }

  function LeadingOf(t: string): seq<string> {
    NoEmptyToken(t);
    Leading(TokensOf(t))
  }

  /** Any number of registrations: siblings stay distinct, and a path of full words that leads
      somewhere goes on leading there. */
  method RegisterAll(tree: Tree, cmds: seq<Command>)
    requires tree.Valid()
    modifies tree, tree.s.kids.Keys
    ensures tree.Valid() && Stable(old(tree.s).kids, tree.s.kids, tree.root)
  {
    ghost var before := tree.s.kids;
    for i := 0 to |cmds|
      invariant tree.Valid() && Stable(before, tree.s.kids, tree.root)
      invariant fresh(tree.s.kids.Keys - before.Keys)
    {
      ghost var was := tree.s.kids;
      var ok, word := tree.Register(cmds[i]);
      StableTwice(before, was, tree.s.kids, tree.root);
    }
  }

  lemma NotExact(tok: string, choices: seq<Word>, i: nat)
    requires tok != "" && i < |choices| && forall k: nat :: !Selects(tok, choices, k)
    ensures choices[i].word != tok
  {
    if choices[i].word == tok {
      var k := ExactSelects(tok, choices, i);
      assert false;
    }
  }

  lemma ExactSelects(tok: string, choices: seq<Word>, i: nat) returns (k: nat)
    requires tok != "" && i < |choices| && choices[i].word == tok
    ensures Selects(tok, choices, k)
  {
    k := FirstExact(tok, choices, i);
  }

  lemma FirstExact(tok: string, choices: seq<Word>, i: nat) returns (k: nat)
    requires i < |choices| && choices[i].word == tok
    ensures Exact(tok, choices, k)
  {
    k := 0;
    while choices[k].word != tok
      invariant k <= i && forall j :: 0 <= j < k ==> choices[j].word != tok
      decreases i - k
    {
      k := k + 1;
    }
  }
}
