/**
  Which files load accepts, by a grammar of their lines: stanzas from "volume" to "end-volume", with
  blank lines anywhere.
 */
module VolfileGrammar {
  import opened Wrappers
  import opened VolText
  import opened Volfile
  import opened VolfileRoundTrip

  // ---- the grammar -------------------------------------------------------------------

  predicate Opening(text: seq<string>) {
    |text| >= 2 && text[0] == "volume"
  }

  predicate Ending(text: seq<string>) {
    text != [] && text[0] == "end-volume"
  }

  /** A line inside a stanza, when the volumes in `known` have been defined. */
  predicate Inner(text: seq<string>, known: set<string>) {
    || text == []
    || (|text| >= 2 && text[0] == "type")
    || (|text| >= 2 && text[0] == "option")
    || (text[0] == "subvolumes" && forall j :: 1 <= j < |text| ==> text[j] in known)
  }

  /** The first `k` lines are inside a stanza, and line `k` ends it. */
  predicate EndsAt(texts: seq<seq<string>>, k: nat, known: set<string>) {
    k < |texts| && Ending(texts[k]) && forall i :: 0 <= i < k ==> Inner(texts[i], known)
  }

  /** The lines are stanzas, each naming as subvolumes only volumes of stanzas before it. */
  ghost predicate Stanzas(texts: seq<seq<string>>, known: set<string>)
    decreases |texts|, 1
  {
    if texts == [] then true
    else if texts[0] == [] then Stanzas(texts[1..], known)
    else Opening(texts[0]) && Rest(texts[1..], known, texts[0][1])
  }

  /** The lines go on inside the stanza of the volume `name`, which ends somewhere. */
  ghost predicate Rest(texts: seq<seq<string>>, known: set<string>, name: string)
    decreases |texts|, 0
  {
    exists k: nat :: EndsAt(texts, k, known) && Stanzas(texts[k + 1..], known + {name})
  }

  // ---- one line ----------------------------------------------------------------------

  lemma {:induction false} LookupSucceeds(all: map<string, nat>, names: seq<string>)
    ensures Lookup(all, names).Ok? <==> forall j :: 0 <= j < |names| ==> names[j] in all
  {
    if names != [] {
      var init := names[..|names| - 1];
      LookupSucceeds(all, init);
      assert names == init + [names[|names| - 1]];
    }
  }

  lemma SubvolumesSucceed(all: map<string, nat>, text: seq<string>)
    requires text != []
    ensures Lookup(all, text[1..]).Ok? <==> forall j :: 1 <= j < |text| ==> text[j] in all.Keys
  {
    LookupSucceeds(all, text[1..]);
    assert forall j :: 1 <= j < |text| ==> text[1..][j - 1] == text[j];
  }

  /** Inside a stanza a line is accepted exactly when it is an inner line or ends the stanza. */
  lemma LineInside(r: Reading, text: seq<string>)
    requires r.cur.Some? && text != []
    ensures ReadWords(r, text).Ok? <==> Inner(text, r.all.Keys) || Ending(text)
    ensures Inner(text, r.all.Keys) ==> !Ending(text)
    ensures Inner(text, r.all.Keys) ==> var r' := ReadWords(r, text).value;
      r'.cur.Some? && r'.cur.value.name == r.cur.value.name && r'.all == r.all
    ensures Ending(text) ==> var r' := ReadWords(r, text).value;
      r'.cur.None? && r'.all.Keys == r.all.Keys + {r.cur.value.name}
  {
    Keywords();
    SubvolumesSucceed(r.all, text);
  }

  /** Outside, exactly when it opens one. */
  lemma LineOutside(r: Reading, text: seq<string>)
    requires r.cur.None? && text != []
    ensures ReadWords(r, text).Ok? <==> Opening(text)
    ensures Opening(text) ==> ReadWords(r, text).value == r.(cur := Some(Node(text[1], "", [], [])))
  {
    Keywords();
  }

  // ---- all lines ---------------------------------------------------------------------

  function Splits(lines: seq<string>): (r: seq<seq<string>>)
    ensures |r| == |lines| && forall i :: 0 <= i < |lines| ==> r[i] == Split(lines[i])
  {
    seq(|lines|, i requires 0 <= i < |lines| => Split(lines[i]))
  }

  predicate Complete(x: Result<Reading>) {
    x.Ok? && x.value.cur.None?
  }

  lemma ReadFirst(r: Reading, lines: seq<string>)
    requires lines != []
    ensures ReadLines(r, lines) ==
      match ReadLine(r, lines[0]) {
        case Err => Err
        case Ok(r1) => ReadLines(r1, lines[1..])
      }
    ensures Splits(lines)[0] == Split(lines[0]) && Splits(lines)[1..] == Splits(lines[1..])
  {
    assert lines == [lines[0]] + lines[1..];
    ReadAppend(r, [lines[0]], lines[1..]);
    assert [lines[0]][..0] == [];
    assert ReadLines(r, [lines[0]][..0]) == Ok(r);
  }

  lemma RestOn(texts: seq<seq<string>>, known: set<string>, name: string)
    requires texts != [] && Inner(texts[0], known) && !Ending(texts[0])
    ensures Rest(texts, known, name) <==> Rest(texts[1..], known, name)
  {
    var tail := texts[1..];
    if k: nat :| EndsAt(texts, k, known) && Stanzas(texts[k + 1..], known + {name}) {
      assert EndsAt(tail, k - 1, known) && tail[k - 1 + 1..] == texts[k + 1..];
    }
    if k: nat :| EndsAt(tail, k, known) && Stanzas(tail[k + 1..], known + {name}) {
      assert EndsAt(texts, k + 1, known) && tail[k + 1..] == texts[k + 1 + 1..];
    }
  }

  lemma RestEnds(texts: seq<seq<string>>, known: set<string>, name: string)
    requires texts != [] && !Inner(texts[0], known)
    ensures Rest(texts, known, name) <==> Ending(texts[0]) && Stanzas(texts[1..], known + {name})
  {
    if Ending(texts[0]) && Stanzas(texts[1..], known + {name}) {
      assert EndsAt(texts, 0, known);
    }
    if k: nat :| EndsAt(texts, k, known) && Stanzas(texts[k + 1..], known + {name}) {
      assert k == 0;
    }
  }

  lemma {:induction false} InsideAccepts(r: Reading, lines: seq<string>)
    requires r.cur.Some?
    ensures Complete(ReadLines(r, lines)) <==> Rest(Splits(lines), r.all.Keys, r.cur.value.name)
    decreases |lines|
  {
    var texts := Splits(lines);
    if lines != [] {
      ReadFirst(r, lines);
      if texts[0] == [] {
        RestOn(texts, r.all.Keys, r.cur.value.name);
        InsideAccepts(r, lines[1..]);
      } else {
        LineInside(r, texts[0]);
        if Inner(texts[0], r.all.Keys) {
          RestOn(texts, r.all.Keys, r.cur.value.name);
          InsideAccepts(ReadWords(r, texts[0]).value, lines[1..]);
        } else {
          RestEnds(texts, r.all.Keys, r.cur.value.name);
          if Ending(texts[0]) {
            OutsideAccepts(ReadWords(r, texts[0]).value, lines[1..]);
          }
        }
      }
    }
  }

  lemma {:induction false} OutsideAccepts(r: Reading, lines: seq<string>)
    requires r.cur.None?
    ensures Complete(ReadLines(r, lines)) <==> Stanzas(Splits(lines), r.all.Keys)
    decreases |lines|
  {
    var texts := Splits(lines);
    if lines != [] {
      ReadFirst(r, lines);
      if texts[0] == [] {
        OutsideAccepts(r, lines[1..]);
      } else {
        LineOutside(r, texts[0]);
        if Opening(texts[0]) {
          InsideAccepts(ReadWords(r, texts[0]).value, lines[1..]);
        }
      }
    }
  }

  /** load accepts a file if and only if its lines are stanzas: an unknown keyword, text outside a stanza, a
      nested or unclosed stanza, a missing word and an unknown subvolume all stop it, and nothing else does. */
  lemma LoadAccepts(lines: seq<string>)
    ensures Load(lines).Ok? <==> Stanzas(Splits(lines), {})
  {
    assert NOTHING_READ.all.Keys == {};
    OutsideAccepts(NOTHING_READ, lines);
  }
}
