/**
  The template checker of cli/src/registry.c: a recursive scan for nested brackets, against the grammar
  of properly nested texts.
 */
module Template {
  import opened Wrappers

  predicate Opens(ch: char) {
    ch == '<' || ch == '(' || ch == '['
  }

  predicate Closes(ch: char) {
    ch == '>' || ch == ')' || ch == ']'
  }

  /** counter_char; the end of the string (None) for a character that opens nothing. */
  function Counter(ch: char): Option<char> {
    if ch == '(' then Some(')')
    else if ch == '<' then Some('>')
    else if ch == '[' then Some(']')
    else if ch == '{' then Some('}')
    else None
  }

  /** __is_template_balanced from position `i`: the first closing bracket that has no partner after
      `i`, or the end; None when a bracket is closed by another kind or not at all. Braces are
      ordinary characters here. */
  function Scan(t: string, i: nat): (r: Option<nat>)
    requires i <= |t|
    ensures r.Some? ==> i <= r.value <= |t| && (r.value < |t| ==> Closes(t[r.value]))
    decreases |t| - i
  {
    if i == |t| then Some(i)
    else if Opens(t[i]) then
      match Scan(t, i + 1)
      case None => None
      case Some(j) => if j == |t| || Counter(t[i]) != Some(t[j]) then None else Scan(t, j + 1)
    else if Closes(t[i]) then Some(i)
    else Scan(t, i + 1)
  }

  method ScanBalanced(t: string, start: nat) returns (r: Option<nat>)
    requires start <= |t|
    ensures r == Scan(t, start)
    decreases |t| - start
  {
    var trav := start;
    while trav < |t|
      invariant start <= trav <= |t| && Scan(t, start) == Scan(t, trav)
    {
      var ch := t[trav];
      if Opens(ch) {
        var inner := ScanBalanced(t, trav + 1);
        if inner.None? || inner.value == |t| || Counter(ch) != Some(t[inner.value]) {
          return None;
        }
        trav := inner.value;
      } else if Closes(ch) {
        return Some(trav);
      }
      trav := trav + 1;
    }
    return Some(trav);
  }

  // ---- a stack machine ---------------------------------------------------------------

  /** From position `i`, with the closing brackets on `stack` still expected, everything is closed in
      order. */
  predicate Nested(t: string, i: nat, stack: seq<char>)
    requires i <= |t|
    decreases |t| - i
  {
    if i == |t| then stack == []
    else if Opens(t[i]) then Nested(t, i + 1, stack + [Counter(t[i]).value])
    else if Closes(t[i]) then
      stack != [] && stack[|stack| - 1] == t[i] && Nested(t, i + 1, stack[..|stack| - 1])
    else Nested(t, i + 1, stack)
  }

  /** What the scan says about the machine: it fails where the machine must, and otherwise stops
      where the machine pops the top of the stack it started with. */
  lemma {:induction false} ScanIsNested(t: string, i: nat, stack: seq<char>)
    requires i <= |t|
    ensures Nested(t, i, stack) <==>
      match Scan(t, i)
      case None => false
      case Some(j) =>
        if j == |t| then stack == []
        else stack != [] && stack[|stack| - 1] == t[j] && Nested(t, j + 1, stack[..|stack| - 1])
    decreases |t| - i
  {
    if i < |t| {
      if Opens(t[i]) {
        var pushed := stack + [Counter(t[i]).value];
        ScanIsNested(t, i + 1, pushed);
        assert pushed[..|pushed| - 1] == stack;
        var inner := Scan(t, i + 1);
        if inner.Some? && inner.value < |t| {
          ScanIsNested(t, inner.value + 1, stack);
        }
      } else if !Closes(t[i]) {
        ScanIsNested(t, i + 1, stack);
      }
    }
  }

  // ---- the reference: a grammar ------------------------------------------------------

  /** How a properly nested template is put together. */
  datatype Shape =
    | Nothing
    | Plain(ch: char)
    | Angle(body: Shape)
    | Round(body: Shape)
    | Square(body: Shape)
    | Both(left: Shape, right: Shape)

  function Spell(d: Shape): string {
    match d
    case Nothing => ""
    case Plain(ch) => [ch]
    case Angle(b) => "<" + Spell(b) + ">"
    case Round(b) => "(" + Spell(b) + ")"
    case Square(b) => "[" + Spell(b) + "]"
    case Both(l, r) => Spell(l) + Spell(r)
  }

  /** Single characters are none of the six brackets. */
  predicate Proper(d: Shape) {
    match d
    case Nothing => true
    case Plain(ch) => ch !in "<>()[]"
    case Angle(b) => Proper(b)
    case Round(b) => Proper(b)
    case Square(b) => Proper(b)
    case Both(l, r) => Proper(l) && Proper(r)
  }

  /** The grammar derives `t`. */
  ghost predicate Derived(t: string) {
    exists d: Shape :: Proper(d) && Spell(d) == t
  }

  /** `piece` stands in `t` at position `i`. */
  predicate StandsAt(t: string, i: nat, piece: string) {
    i + |piece| <= |t| && forall k :: 0 <= k < |piece| ==> t[i + k] == piece[k]
  }

  lemma StandApart(t: string, i: nat, a: string, b: string)
    requires StandsAt(t, i, a + b)
    ensures StandsAt(t, i, a) && StandsAt(t, i + |a|, b)
  {
    forall k | 0 <= k < |a| ensures t[i + k] == a[k] {
      assert (a + b)[k] == a[k];
    }
    forall k | 0 <= k < |b| ensures t[i + |a| + k] == b[k] {
      assert (a + b)[|a| + k] == b[k];
    }
  }

  lemma StandInside(t: string, i: nat, open: char, body: string, close: char)
    requires StandsAt(t, i, [open] + body + [close])
    ensures t[i] == open && StandsAt(t, i + 1, body) && t[i + 1 + |body|] == close
  {
    StandApart(t, i, [open] + body, [close]);
    StandApart(t, i, [open], body);
    assert t[i + 0] == [open][0] && t[i + 1 + |body| + 0] == [close][0];
  }

  lemma NoBracket(ch: char)
    requires ch !in "<>()[]"
    ensures !Opens(ch) && !Closes(ch)
  {
    var six := "<>()[]";
    assert six[0] == '<' && six[1] == '>' && six[2] == '(' && six[3] == ')' && six[4] == '[' && six[5] == ']';
  }

  /** The machine goes over a derived piece without touching its stack. */
  lemma {:induction false} MachinePasses(t: string, i: nat, d: Shape, stack: seq<char>)
    requires Proper(d) && StandsAt(t, i, Spell(d))
    ensures Nested(t, i, stack) == Nested(t, i + |Spell(d)|, stack)
    decreases d, 0
  {
    match d
    case Nothing =>
    case Plain(ch) =>
      assert t[i + 0] == [ch][0];
      NoBracket(ch);
    case Angle(b) => BracketPasses(t, i, b, stack, '<', '>');
    case Round(b) => BracketPasses(t, i, b, stack, '(', ')');
    case Square(b) => BracketPasses(t, i, b, stack, '[', ']');
    case Both(l, r) =>
      StandApart(t, i, Spell(l), Spell(r));
      MachinePasses(t, i, l, stack);
      MachinePasses(t, i + |Spell(l)|, r, stack);
  }

  lemma {:induction false} BracketPasses(t: string, i: nat, b: Shape, stack: seq<char>, open: char, close: char)
    requires Proper(b) && StandsAt(t, i, [open] + Spell(b) + [close])
    requires (open == '<' && close == '>') || (open == '(' && close == ')') || (open == '[' && close == ']')
    ensures Nested(t, i, stack) == Nested(t, i + |Spell(b)| + 2, stack)
    decreases b, 1
  {
    var pushed := stack + [close];
    StandInside(t, i, open, Spell(b), close);
    MachinePasses(t, i + 1, b, pushed);
    assert pushed[..|pushed| - 1] == stack;
  }

  function Bracketed(open: char, b: Shape): Shape {
    if open == '<' then Angle(b) else if open == '(' then Round(b) else Square(b)
  }

  lemma CutBracket(t: string, i: nat, j: nat, k: nat)
    requires i < j < k <= |t|
    ensures t[i..k] == [t[i]] + t[i + 1..j] + [t[j]] + t[j + 1..k]
  {
  }

  /** What the scan goes over is derived. */
  lemma {:induction false} ScannedIsDerived(t: string, i: nat) returns (d: Shape)
    requires i <= |t| && Scan(t, i).Some?
    ensures Proper(d) && Spell(d) == t[i..Scan(t, i).value]
    decreases |t| - i
  {
    if i == |t| || Closes(t[i]) {
      d := Nothing;
    } else if Opens(t[i]) {
      var j := Scan(t, i + 1).value;
      var b := ScannedIsDerived(t, i + 1);
      var r := ScannedIsDerived(t, j + 1);
      d := Both(Bracketed(t[i], b), r);
      assert Spell(Bracketed(t[i], b)) == [t[i]] + Spell(b) + [t[j]];
      CutBracket(t, i, j, Scan(t, i).value);
    } else {
      var r := ScannedIsDerived(t, i + 1);
      d := Both(Plain(t[i]), r);
      assert t[i..Scan(t, i).value] == [t[i]] + t[i + 1..Scan(t, i).value];
    }
  }

  lemma DerivedIsNested(t: string, d: Shape)
    requires Proper(d) && Spell(d) == t
    ensures Nested(t, 0, [])
  {
    MachinePasses(t, 0, d, []);
  }

  lemma BalancedDerives(t: string)
    requires Scan(t, 0) == Some(|t|)
    ensures Derived(t)
  {
    var d := ScannedIsDerived(t, 0);
    assert t[0..|t|] == t;
  }

  /** The template check accepts exactly the templates that the grammar derives. */
  lemma BalancedIsDerived(t: string)
    ensures Scan(t, 0) == Some(|t|) <==> Derived(t)
  {
    if Scan(t, 0) == Some(|t|) {
      BalancedDerives(t);
    } else if d: Shape :| Proper(d) && Spell(d) == t {
      DerivedIsNested(t, d);
      ScanIsNested(t, 0, []);
    }
  }

  /** is_template_balanced. */
  method IsBalanced(t: string) returns (ok: bool)
    ensures ok <==> Derived(t)
  {
    var trav := ScanBalanced(t, 0);
    ok := trav == Some(|t|);
    BalancedIsDerived(t);
  }
}
