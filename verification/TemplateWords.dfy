/**
  Which words of a command template lead to its command: those in front of the first bracket or bar.
 */
module TemplateWords {
  import opened Tokens
  import opened CommandTree

  /** A word as it is written in a template: no space, bracket or bar. */
  predicate Written(w: string) {
    w != "" && forall i :: 0 <= i < |w| ==> w[i] !in " ()<>[]{}|"
  }

  /** What is left of the template begins with a bracket or bar, or is nothing. */
  predicate Argument(tail: string) {
    tail != "" ==> tail[0] in "()<>[]{}|"
  }

  /** The words, each with a space after it. */
  function Spaced(ws: seq<string>): string {
    if ws == [] then "" else ws[0] + " " + Spaced(ws[1..])
  }

  /** Spaces and dividers; every bracket of the template check is a divider. */
  lemma DividersAre(ch: char)
    ensures ch in " ()<>[]{}|" <==> !IsWordChar(ch)
    ensures ch in "()<>[]{}|" <==> IsDiv(ch)
    ensures ch in "<>()[]" ==> IsDiv(ch)
  {
    var d, all, six := "()<>[]{}|", " ()<>[]{}|", "<>()[]";
    assert all == " " + d && all[0] == ' ';
    assert d[0] == '(' && d[1] == ')' && d[2] == '<' && d[3] == '>' && d[4] == '[' && d[5] == ']';
    assert d[6] == '{' && d[7] == '}' && d[8] == '|';
  }

  lemma WrittenIsWord(w: string)
    requires Written(w)
    ensures forall i :: 0 <= i < |w| ==> IsWordChar(w[i])
  {
    forall i | 0 <= i < |w| ensures IsWordChar(w[i]) {
      DividersAre(w[i]);
    }
  }

  lemma WordFirst(w: string, t: string)
    requires w != "" && (forall i :: 0 <= i < |w| ==> IsWordChar(w[i])) && (t != "" ==> !IsWordChar(t[0]))
    ensures TokensOf(w + t) == [w] + TokensOf(t)
  {
    var all := w + t;
    assert forall i :: 0 <= i < |w| ==> IsWordChar(all[i]);
    assert t != "" ==> all[|w|] == t[0];
    assert WordLength(all) == |w|;
    assert all[..|w|] == w && all[|w|..] == t;
  }

  /** A word in front is the first that leads to the command. */
  lemma LeadingFirst(w: string, t: string)
    requires Written(w) && (t != "" ==> !IsWordChar(t[0]))
    ensures LeadingOf(w + t) == [w] + LeadingOf(t)
  {
    WrittenIsWord(w);
    WordFirst(w, t);
  }

  lemma LeadingWord(w: string, t: string)
    requires Written(w)
    ensures LeadingOf(w + (" " + t)) == [w] + LeadingOf(t)
  {
    LeadingFirst(w, " " + t);
    assert (" " + t)[1..] == t;
  }

  lemma SpacedFirst(ws: seq<string>, t: string)
    requires ws != []
    ensures Spaced(ws) + t == ws[0] + (" " + (Spaced(ws[1..]) + t))
  {
  }

  lemma FirstApart(ws: seq<string>, more: seq<string>)
    requires ws != []
    ensures ws + more == [ws[0]] + (ws[1..] + more)
  {
  }

  lemma {:induction false} LeadingSpaced(ws: seq<string>, t: string)
    requires forall i :: 0 <= i < |ws| ==> Written(ws[i])
    ensures LeadingOf(Spaced(ws) + t) == ws + LeadingOf(t)
  {
    if ws == [] {
      assert Spaced(ws) + t == t;
    } else {
      SpacedFirst(ws, t);
      LeadingWord(ws[0], Spaced(ws[1..]) + t);
      LeadingSpaced(ws[1..], t);
      FirstApart(ws, LeadingOf(t));
    }
  }

  lemma ArgumentStops(tail: string)
    requires Argument(tail)
    ensures LeadingOf(tail) == [] && (tail != "" ==> !IsWordChar(tail[0]))
  {
    if tail != "" {
      DividersAre(tail[0]);
    }
  }

  /** The words in front of the first bracket or bar, or of the end, lead to the command. */
  lemma LeadingIsWritten(ws: seq<string>, tail: string)
    requires (forall i :: 0 <= i < |ws| ==> Written(ws[i])) && Argument(tail)
    ensures LeadingOf(Spaced(ws) + tail) == ws
  {
    ArgumentStops(tail);
    LeadingSpaced(ws, tail);
  }

  /** The same when there is no space after the last of them. */
  lemma LeadingIsAllWritten(ws: seq<string>, last: string, tail: string)
    requires (forall i :: 0 <= i < |ws| ==> Written(ws[i])) && Written(last) && Argument(tail)
    ensures LeadingOf(Spaced(ws) + (last + tail)) == ws + [last]
  {
    ArgumentStops(tail);
    LeadingFirst(last, tail);
    assert LeadingOf(last + tail) == [last];
    LeadingSpaced(ws, last + tail);
  }
}
