/**
  The tokenizer of cli/src/registry.c: counting and filling.
 */
module Tokens {
  import opened Wrappers
  import opened Template

  predicate IsSpc(ch: char) {
    ch == ' '
  }

  predicate IsDiv(ch: char) {
    || ch == '(' || ch == ')' || ch == '<' || ch == '>' || ch == '[' || ch == ']'
    || ch == '{' || ch == '}' || ch == '|'
  }

  predicate IsWordChar(ch: char) {
    !IsSpc(ch) && !IsDiv(ch)
  }

  /** The length of the word that `t` begins with. */
  function WordLength(t: string): (k: nat)
    ensures k <= |t| && (forall i :: 0 <= i < k ==> IsWordChar(t[i])) && (k < |t| ==> !IsWordChar(t[k]))
  {
    if t == [] || !IsWordChar(t[0]) then 0 else 1 + WordLength(t[1..])
  }

  /** The reference: dividers, and words as long as possible; spaces only separate. */
  function TokensOf(t: string): seq<string> {
    if t == [] then []
    else if IsSpc(t[0]) then TokensOf(t[1..])
    else if IsDiv(t[0]) then [t[..1]] + TokensOf(t[1..])
    else [t[..WordLength(t)]] + TokensOf(t[WordLength(t)..])
  }

  predicate IsToken(s: string) {
    || (|s| == 1 && IsDiv(s[0]))
    || (s != [] && forall i :: 0 <= i < |s| ==> IsWordChar(s[i]))
  }

  lemma {:induction false} TokensAreTokens(t: string, i: nat)
    requires i < |TokensOf(t)|
    ensures IsToken(TokensOf(t)[i])
    decreases |t|
  {
    if IsSpc(t[0]) {
      TokensAreTokens(t[1..], i);
    } else if i > 0 {
      TokensAreTokens(t[if IsDiv(t[0]) then 1 else WordLength(t)..], i - 1);
    }
  }

  function Concat(ss: seq<string>): string {
    if ss == [] then [] else ss[0] + Concat(ss[1..])
  }

  function NoSpaces(t: string): string {
    if t == [] then [] else (if IsSpc(t[0]) then [] else [t[0]]) + NoSpaces(t[1..])
  }

  lemma {:induction false} NoSpacesWord(t: string, k: nat)
    requires k <= |t| && forall i :: 0 <= i < k ==> IsWordChar(t[i])
    ensures NoSpaces(t) == t[..k] + NoSpaces(t[k..])
    decreases k
  {
    if k > 0 {
      NoSpacesWord(t[1..], k - 1);
      assert t[1..][k - 1..] == t[k..] && t[..k] == [t[0]] + t[1..][..k - 1];
    }
  }

  /** The tokens put together again are the template without its spaces. */
  lemma {:induction false} TokensKeepText(t: string)
    ensures Concat(TokensOf(t)) == NoSpaces(t)
    decreases |t|
  {
    if t == [] {
    } else if IsSpc(t[0]) || IsDiv(t[0]) {
      TokensKeepText(t[1..]);
      if IsDiv(t[0]) {
        assert TokensOf(t)[1..] == TokensOf(t[1..]) && t[..1] == [t[0]];
      }
    } else {
      var k := WordLength(t);
      TokensKeepText(t[k..]);
      NoSpacesWord(t, k);
      assert TokensOf(t)[1..] == TokensOf(t[k..]);
    }
  }

  // ---- counting ----------------------------------------------------------------------

  /** Tokens that begin in `t`, when the character before belongs to a word or not. */
  function Begun(t: string, inWord: bool): nat {
    if t == [] then 0
    else if IsDiv(t[0]) then 1 + Begun(t[1..], false)
    else if IsSpc(t[0]) then Begun(t[1..], false)
    else (if inWord then 0 else 1) + Begun(t[1..], true)
  }

  lemma {:induction false} BegunAfterWord(t: string, k: nat)
    requires k <= |t| && forall i :: 0 <= i < k ==> IsWordChar(t[i])
    requires k < |t| ==> !IsWordChar(t[k])
    ensures Begun(t, true) == Begun(t[k..], false)
    decreases k
  {
    if k > 0 {
      BegunAfterWord(t[1..], k - 1);
      assert t[1..][k - 1..] == t[k..];
    }
  }

  /** Counting beginnings counts tokens. */
  lemma {:induction false} BegunCountsTokens(t: string)
    ensures Begun(t, false) == |TokensOf(t)|
    decreases |t|
  {
    if t != [] {
      if IsWordChar(t[0]) {
        var k := WordLength(t);
        BegunAfterWord(t[1..], k - 1);
        assert t[1..][k - 1..] == t[k..];
        BegunCountsTokens(t[k..]);
      } else {
        BegunCountsTokens(t[1..]);
      }
    }
  }

  lemma BegunFrom(t: string, i: nat, inWord: bool)
    requires i <= |t|
    ensures Begun(t[i..], inWord) == if i == |t| then 0 else
      (if IsDiv(t[i]) || (IsWordChar(t[i]) && !inWord) then 1 else 0) + Begun(t[i + 1..], IsWordChar(t[i]))
  {
    if i < |t| {
      assert t[i..][1..] == t[i + 1..];
    }
  }

  /** cli_cmd_token_count: one more than there are tokens. */
  method TokenCount(t: string) returns (count: nat)
    ensures count == |TokensOf(t)| + 1
  {
    count := 0;
    var inWord := false;
    assert t[0..] == t;
    for i := 0 to |t|
      invariant count + Begun(t[i..], inWord) == Begun(t, false)
    {
      BegunFrom(t, i, inWord);
      if IsDiv(t[i]) {
        count := count + 1;
        inWord := false;
      } else if IsSpc(t[i]) {
        inWord := false;
      } else if !inWord {
        inWord := true;
        count := count + 1;
      }
    }
    BegunCountsTokens(t);
    count := count + 1;
  }

  // ---- filling -----------------------------------------------------------------------

  /** The first `n` slots of the array hold `ss`, the others nothing. */
  predicate Holds(a: array<Option<string>>, ss: seq<string>)
    reads a
  {
    && |ss| <= a.Length
    && (forall i :: 0 <= i < |ss| ==> a[i] == Some(ss[i]))
    && (forall i :: |ss| <= i < a.Length ==> a[i] == None)
  }

  /** cli_cmd_tokens_fill: writes the tokens and nothing beyond them. */
  method TokensFill(tokens: array<Option<string>>, t: string)
    requires tokens.Length >= |TokensOf(t)| && Holds(tokens, [])
    modifies tokens
    ensures Holds(tokens, TokensOf(t))
  {
    var i, n := 0, 0;
    ghost var all := TokensOf(t);
    assert t[0..] == t;
    while i < |t|
      invariant 0 <= i <= |t| && 0 <= n <= |all| && Holds(tokens, all[..n])
      invariant TokensOf(t[i..]) == all[n..]
    {
      assert t[i..][1..] == t[i + 1..];
      if IsSpc(t[i]) {
        i := i + 1;
        continue;
      }
      if IsDiv(t[i]) {
        assert t[i..][..1] == t[i..i + 1] == [t[i]];
        tokens[n] := Some([t[i]]);
        assert all[n..][1..] == all[n + 1..];
        n, i := n + 1, i + 1;
        continue;
      }
      ghost var w := WordLength(t[i..]);
      var k := 1;
      while i + k < |t| && !IsSpc(t[i + k]) && !IsDiv(t[i + k])
        invariant 1 <= k <= w && i + k <= |t|
      {
        assert t[i..][k] == t[i + k];
        k := k + 1;
      }
      assert k == w by {
        assert i + k < |t| ==> t[i..][k] == t[i + k];
      }
      assert t[i..][..k] == t[i..i + k] && t[i..][k..] == t[i + k..];
      tokens[n] := Some(t[i..i + k]);
      assert all[n..][1..] == all[n + 1..];
      n, i := n + 1, i + k;
    }
    assert all[..n] == all;
  }

  /** cli_cmd_tokenize: nothing for a template that is not balanced, otherwise its tokens and at
      least one empty slot after them. */
  method Tokenize(t: string) returns (ok: bool, tokens: array<Option<string>>)
    ensures ok <==> Derived(t)
    ensures ok ==> fresh(tokens) && tokens.Length == |TokensOf(t)| + 2 && Holds(tokens, TokensOf(t))
  {
    ok := IsBalanced(t);
    if !ok {
      tokens := new Option<string>[0];
      return;
    }
    var count := TokenCount(t);
    tokens := new Option<string>[count + 1](_ => None);
    TokensFill(tokens, t);
  }
}
