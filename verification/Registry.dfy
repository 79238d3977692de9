/**
  The command tree of cli/src/registry.c: looking words up by unambiguous prefix, and registering
  commands.
 */
module Registry {
  import opened Wrappers

  /** What cli_cmd_ingest attaches to a word: callback, description and pattern. */
  datatype Command = Command(callback: int, desc: string, pattern: string)

  class Word {
    const word: string
    var nextwords: seq<Word>
    var command: Option<Command>

    constructor (text: string)
      ensures word == text && nextwords == [] && command == None
    {
      word, nextwords, command := text, [], None;
    }
  }

  // ---- cli_getunamb ------------------------------------------------------------------

  /** strtail: what follows `pattern` in `s`, if `s` begins with it. */
  method StrTail(s: string, pattern: string) returns (r: Option<nat>)
    ensures r.Some? <==> pattern <= s
    ensures r.Some? ==> r.value == |pattern|
  {
    var i := 0;
    while i < |s| && i < |pattern| && s[i] == pattern[i]
      invariant 0 <= i <= |s| && i <= |pattern| && s[..i] == pattern[..i]
    {
      i := i + 1;
    }
    if i == |pattern| {
      assert pattern[..i] == pattern;
      return Some(i);
    }
    return None;
  }

  /** `i` is the first of the choices that is exactly `tok`. */
  predicate Exact(tok: string, choices: seq<Word>, i: nat) {
    i < |choices| && choices[i].word == tok && forall j :: 0 <= j < i ==> choices[j].word != tok
  }

  /** `i` is the only one of the choices that begins with `tok`. */
  predicate OnlyPrefix(tok: string, choices: seq<Word>, i: nat) {
    i < |choices| && tok <= choices[i].word && forall j :: 0 <= j < |choices| && j != i ==> !(tok <= choices[j].word)
  }

  /** The exact match if there is one, otherwise the only choice that begins with `tok`. */
  ghost predicate Selects(tok: string, choices: seq<Word>, i: nat) {
    tok != "" && if exists k: nat :: Exact(tok, choices, k) then Exact(tok, choices, i) else OnlyPrefix(tok, choices, i)
  }

  lemma SelectsOne(tok: string, choices: seq<Word>, i: nat, j: nat)
    requires Selects(tok, choices, i) && Selects(tok, choices, j)
    ensures i == j
  {
  }

  method GetUnamb(tok: string, choices: seq<Word>) returns (r: Option<Word>)
    ensures r.None? ==> forall i: nat :: !Selects(tok, choices, i)
    ensures r.Some? ==> exists i: nat :: Selects(tok, choices, i) && r.value == choices[i]
  {
    if tok == "" {
      return None;
    }
    var mn := 0;
    ghost var last: nat := 0;
    r := None;
    for i := 0 to |choices|
      invariant forall j :: 0 <= j < i ==> choices[j].word != tok
      invariant mn == 0 ==> r.None? && forall j :: 0 <= j < i ==> !(tok <= choices[j].word)
      invariant mn > 0 ==> last < i && r == Some(choices[last]) && tok <= choices[last].word
      invariant mn == 1 ==> forall j :: 0 <= j < i && j != last ==> !(tok <= choices[j].word)
      invariant mn > 1 ==> exists j :: 0 <= j < i && j != last && tok <= choices[j].word
    {
      var w := StrTail(choices[i].word, tok);
      if w.None? {
        continue;
      }
      if w.value == |choices[i].word| {
        assert Exact(tok, choices, i);
        return Some(choices[i]);
      }
      if mn > 0 {
        assert last != i && tok <= choices[last].word;
      }
      r := Some(choices[i]);
      last := i;
      mn := mn + 1;
    }
    if mn == 1 {
      assert OnlyPrefix(tok, choices, last);
    } else {
      r := None;
    }
  }
}
