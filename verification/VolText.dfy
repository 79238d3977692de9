/**
  Words and lines: Python's str.split() and string.join(), on which the volfile parser and
  printer rest.
 */
module VolText {

  predicate Space(c: char) {
    c == ' ' || '\t' <= c <= '\r'
  }

  /** A token: not empty, without white space. */
  predicate Word(w: string) {
    w != "" && forall i :: 0 <= i < |w| ==> !Space(w[i])
  }

  /** The characters up to the first white space. */
  function Head(s: string): (w: string)
    ensures |w| <= |s|
    ensures s != "" && !Space(s[0]) ==> w != ""
  {
    if s == "" || Space(s[0]) then "" else [s[0]] + Head(s[1..])
  }

  /** str.split(): the maximal runs of other characters. */
  function Split(s: string): seq<string>
    decreases |s|
  {
    if s == "" then []
    else if Space(s[0]) then Split(s[1..])
    else [Head(s)] + Split(s[|Head(s)|..])
  }

  /** string.join(): words with single blanks in between. */
  function Join(ws: seq<string>): string {
    if ws == [] then "" else if |ws| == 1 then ws[0] else ws[0] + " " + Join(ws[1..])
  }

  /** Text that is what its words joined give: the option values the parser produces. */
  predicate Normal(s: string) {
    Join(Split(s)) == s
  }

  lemma {:induction false} HeadOfWord(w: string, s: string)
    requires forall i :: 0 <= i < |w| ==> !Space(w[i])
    requires s == "" || Space(s[0])
    ensures Head(w + s) == w
  {
    if w == "" {
      assert w + s == s;
    } else {
      assert (w + s)[1..] == w[1..] + s;
      HeadOfWord(w[1..], s);
    }
  }

  /** A word in front of white space or the end is split off. */
  lemma SplitWord(w: string, s: string)
    requires Word(w) && (s == "" || Space(s[0]))
    ensures Split(w + s) == [w] + Split(s)
  {
    HeadOfWord(w, s);
    assert (w + s)[|w|..] == s;
  }

  lemma SplitBlank(s: string)
    ensures Split(" " + s) == Split(s)
  {
    assert (" " + s)[1..] == s;
  }

  lemma SplitSingle(w: string)
    requires Word(w)
    ensures Split(w) == [w]
  {
    assert w + "" == w;
    SplitWord(w, "");
  }

  /** A word, a blank, and the rest. */
  lemma SplitFirst(w: string, s: string)
    requires Word(w)
    ensures Split(w + " " + s) == [w] + Split(s)
  {
    assert w + " " + s == w + (" " + s);
    SplitWord(w, " " + s);
    SplitBlank(s);
  }

  lemma {:induction false} SplitOfJoin(ws: seq<string>)
    requires forall i :: 0 <= i < |ws| ==> Word(ws[i])
    ensures Split(Join(ws)) == ws
  {
    if |ws| == 1 {
      SplitSingle(ws[0]);
    } else if |ws| > 1 {
      SplitFirst(ws[0], Join(ws[1..]));
      SplitOfJoin(ws[1..]);
    }
  }

  lemma {:induction false} HeadIsWord(s: string)
    ensures forall i :: 0 <= i < |Head(s)| ==> !Space(Head(s)[i])
  {
    if s != "" && !Space(s[0]) {
      HeadIsWord(s[1..]);
    }
  }

  lemma {:induction false} SplitGivesWords(s: string)
    ensures forall i :: 0 <= i < |Split(s)| ==> Word(Split(s)[i])
    decreases |s|
  {
    if s != "" && Space(s[0]) {
      SplitGivesWords(s[1..]);
    } else if s != "" {
      HeadIsWord(s);
      SplitGivesWords(s[|Head(s)|..]);
    }
  }

  /** Whatever the parser joins is normal, so option values are a fixed point of load. */
  lemma JoinedIsNormal(s: string)
    ensures Normal(Join(Split(s)))
  {
    SplitGivesWords(s);
    SplitOfJoin(Split(s));
  }

  const INDENT: string := "    "

  lemma SplitIndent(s: string)
    ensures Split(INDENT + s) == Split(s)
  {
    assert INDENT + s == " " + (" " + (" " + (" " + s)));
    SplitBlank(s);
    SplitBlank(" " + s);
    SplitBlank(" " + (" " + s));
    SplitBlank(" " + (" " + (" " + s)));
  }

  // ---- where it splits ---------------------------------------------------------------

  lemma {:induction false} HeadOfPieces(a: string, c: char, b: string)
    requires Space(c)
    ensures Head(a + [c] + b) == Head(a)
  {
    if a != "" && !Space(a[0]) {
      assert (a + [c] + b)[1..] == a[1..] + [c] + b;
      HeadOfPieces(a[1..], c, b);
    }
  }

  /** The text splits at every blank, tab, line feed, vertical tab, form feed and carriage return. */
  lemma {:induction false} SplitPieces(a: string, c: char, b: string)
    requires c as int in {9, 10, 11, 12, 13, 32}
    ensures Split(a + [c] + b) == Split(a) + Split(b)
    decreases |a|
  {
    var t := a + [c] + b;
    if a == "" {
      assert t[1..] == b;
    } else if Space(a[0]) {
      assert t[1..] == a[1..] + [c] + b;
      SplitPieces(a[1..], c, b);
    } else {
      var w := Head(a);
      HeadOfPieces(a, c, b);
      assert t[|w|..] == a[|w|..] + [c] + b;
      SplitPieces(a[|w|..], c, b);
      assert Split(t) == [w] + (Split(a[|w|..]) + Split(b));
    }
  }

  /** And nowhere else. */
  lemma SplitWhole(w: string)
    requires w != "" && forall i :: 0 <= i < |w| ==> w[i] as int !in {9, 10, 11, 12, 13, 32}
    ensures Split(w) == [w]
  {
    SplitSingle(w);
  }
}
