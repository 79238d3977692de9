/**
  The greedy placement of extras/rebalance.py on values: each brick that is not in place yet goes
  where the score is highest.
 */
module Greedy {
  import opened Basics
  import opened Score

  /** A brick and what get_score sees of it. */
  datatype Slot<X> = Slot(brick: X, share: Share)

  function Shares<X>(slots: seq<Slot<X>>): (r: seq<Share>)
    ensures |r| == |slots| && forall i :: 0 <= i < |slots| ==> r[i] == slots[i].share
  {
    seq(|slots|, i requires 0 <= i < |slots| => slots[i].share)
  }

  function ScoreOf<X>(slots: seq<Slot<X>>): int {
    Score.Score(Shares(slots), 0)
  }

  /** The list with element `used` moved to position `i`. */
  function MoveTo<X>(s: seq<X>, used: nat, i: nat): (r: seq<X>)
    requires i <= used < |s|
    ensures |r| == |s|
  {
    s[..i] + [s[used]] + s[i..used] + s[used + 1..]
  }

  /** The elements in between make room, and the others stay. */
  lemma MovedElements<X>(s: seq<X>, used: nat, i: nat, j: nat)
    requires i <= used < |s| && j < |s|
    ensures MoveTo(s, used, i)[j]
      == if j == i then s[used] else if i < j <= used then s[j - 1] else s[j]
  {
  }

  /** `r` has the element `used` of `s` at position `i`, and is otherwise `s` without it. */
  predicate IsMove<X(==)>(s: seq<X>, used: nat, i: nat, r: seq<X>) {
    && i <= used < |s| && |r| == |s| && r[i] == s[used]
    && r[..i] + r[i + 1..] == s[..used] + s[used + 1..]
  }

  lemma MoveIsMove<X>(s: seq<X>, used: nat, i: nat, r: seq<X>)
    requires i <= used < |s|
    ensures IsMove(s, used, i, r) <==> r == MoveTo(s, used, i)
  {
    var m := MoveTo(s, used, i);
    if r == m {
      assert r[..i] + r[i + 1..] == s[..used] + s[used + 1..];
    }
    if IsMove(s, used, i, r) {
      var a, b := r[..i] + r[i + 1..], s[..used] + s[used + 1..];
      forall j | 0 <= j < |r| ensures r[j] == m[j] {
        MovedElements(s, used, i, j);
        if j < i {
          assert r[j] == a[j] && b[j] == s[j];
        } else if j > i {
          assert r[j] == a[j - 1] && b[j - 1] == if j <= used then s[j - 1] else s[j];
        }
      }
    }
  }

  lemma MoveMultiset<X>(s: seq<X>, used: nat, i: nat)
    requires i <= used < |s|
    ensures multiset(MoveTo(s, used, i)) == multiset(s)
  {
    assert s == s[..i] + s[i..used] + [s[used]] + s[used + 1..];
  }

  function PlaceScore<X>(slots: seq<Slot<X>>, used: nat, i: nat): int
    requires i <= used < |slots|
  {
    ScoreOf(MoveTo(slots, used, i))
  }

  /** The scores of all places of element `used`. */
  function PlaceScores<X>(slots: seq<Slot<X>>, used: nat): (r: seq<int>)
    requires used < |slots|
    ensures |r| == used + 1 && forall i :: 0 <= i <= used ==> r[i] == PlaceScore(slots, used, i)
  {
    seq(used + 1, i requires 0 <= i <= used => PlaceScore(slots, used, i))
  }

  /** The place the greedy loop takes: the last one unless another is better, and then the first
      of the best. */
  predicate BestPlace(scores: seq<int>, place: nat) {
    && place < |scores|
    && (forall i :: 0 <= i < |scores| ==> scores[i] <= scores[place])
    && (place < |scores| - 1 ==> scores[|scores| - 1] < scores[place]
                                 && forall i :: 0 <= i < place ==> scores[i] < scores[place])
  }

  function FirstBest(scores: seq<int>): (k: nat)
    requires scores != []
    ensures k < |scores| && forall i :: 0 <= i < |scores| ==> scores[i] <= scores[k]
    ensures forall i :: 0 <= i < k ==> scores[i] < scores[k]
  {
    if |scores| == 1 then 0
    else
      var k := FirstBest(scores[1..]);
      if scores[0] >= scores[1..][k] then 0 else k + 1
  }

  function Best(scores: seq<int>): (place: nat)
    requires scores != []
    ensures BestPlace(scores, place)
  {
    var k := FirstBest(scores);
    if scores[|scores| - 1] == scores[k] then |scores| - 1 else k
  }

  lemma OneBest(scores: seq<int>, place: nat)
    requires BestPlace(scores, place)
    ensures place == Best(scores)
  {
    var k := Best(scores);
    assert scores[k] == scores[place];
  }

  function Place<X>(slots: seq<Slot<X>>, used: nat): (place: nat)
    requires used < |slots|
    ensures place <= used && BestPlace(PlaceScores(slots, used), place)
  {
    Best(PlaceScores(slots, used))
  }

  /** The list after the greedy loop has placed the elements from `used` on. */
  function Placed<X>(slots: seq<Slot<X>>, used: nat): seq<Slot<X>>
    requires used <= |slots|
    decreases |slots| - used
  {
    if used == |slots| then slots
    else Placed(MoveTo(slots, used, Place(slots, used)), used + 1)
  }

  /** Moving a brick that is not in `keep` leaves the order of those that are. */
  lemma MoveKeepsOrder<X>(s: seq<X>, used: nat, i: nat, keep: set<X>)
    requires i <= used < |s| && s[used] !in keep
    ensures Only(MoveTo(s, used, i), keep) == Only(s, keep)
  {
    var a, b, c, d := s[..i], s[i..used], [s[used]], s[used + 1..];
    assert s == a + b + c + d;
    OnlyAppend(a + b + c, d, keep);
    OnlyAppend(a + b, c, keep);
    OnlyAppend(a, b, keep);
    OnlyAppend(a + c + b, d, keep);
    OnlyAppend(a + c, b, keep);
    OnlyAppend(a, c, keep);
    OnlyNone(c, keep);
  }

  /** Placement rearranges the bricks. */
  lemma {:induction false} PlacedRearranges<X>(slots: seq<Slot<X>>, used: nat)
    requires used <= |slots|
    ensures multiset(Placed(slots, used)) == multiset(slots)
    decreases |slots| - used
  {
    if used < |slots| {
      var place := Place(slots, used);
      MoveMultiset(slots, used, place);
      PlacedRearranges(MoveTo(slots, used, place), used + 1);
    }
  }

  predicate NoneFrom<X(==)>(s: seq<X>, used: nat, keep: set<X>) {
    forall i :: used <= i < |s| ==> s[i] !in keep
  }

  lemma MoveNone<X>(s: seq<X>, used: nat, i: nat, keep: set<X>)
    requires i <= used < |s| && NoneFrom(s, used, keep)
    ensures NoneFrom(MoveTo(s, used, i), used + 1, keep)
  {
  }

  lemma {:induction false} PlacedKeepsOnly<X>(slots: seq<Slot<X>>, used: nat, keep: set<Slot<X>>)
    requires used <= |slots| && NoneFrom(slots, used, keep)
    ensures Only(Placed(slots, used), keep) == Only(slots, keep)
    decreases |slots| - used
  {
    if used < |slots| {
      var place := Place(slots, used);
      MoveKeepsOrder(slots, used, place, keep);
      MoveNone(slots, used, place, keep);
      PlacedKeepsOnly(MoveTo(slots, used, place), used + 1, keep);
    }
  }

  lemma StepScoresNoLess<X>(slots: seq<Slot<X>>, used: nat)
    requires used < |slots|
    ensures ScoreOf(MoveTo(slots, used, Place(slots, used))) >= ScoreOf(slots)
    ensures forall i :: 0 <= i <= used ==>
      ScoreOf(MoveTo(slots, used, Place(slots, used))) >= PlaceScore(slots, used, i)
  {
    var scores := PlaceScores(slots, used);
    assert MoveTo(slots, used, used) == slots;
    assert scores[used] <= scores[Place(slots, used)];
  }

  /** `r` is where element `used` of `s` goes: of all lists that have it at some place up to its own and are
      otherwise `s` without it, `r` has the highest score; it is `s` unless that score is higher, and
      otherwise has the element at the first of the best places. */
  ghost predicate BestMove<X>(s: seq<Slot<X>>, used: nat, place: nat, r: seq<Slot<X>>) {
    && IsMove(s, used, place, r)
    && (forall i: nat, o :: IsMove(Shares(s), used, i, o) ==> Score.Score(o, 0) <= ScoreOf(r))
    && (place < used ==> ScoreOf(s) < ScoreOf(r) && forall i: nat, o ::
          i < place && IsMove(Shares(s), used, i, o) ==> Score.Score(o, 0) < ScoreOf(r))
  }

  lemma SharesMove<X>(slots: seq<Slot<X>>, used: nat, i: nat)
    requires i <= used < |slots|
    ensures Shares(MoveTo(slots, used, i)) == MoveTo(Shares(slots), used, i)
  {
  }

  lemma StepIsBestMove<X>(slots: seq<Slot<X>>, used: nat)
    requires used < |slots|
    ensures BestMove(slots, used, Place(slots, used), MoveTo(slots, used, Place(slots, used)))
  {
    var place, scores := Place(slots, used), PlaceScores(slots, used);
    var r := MoveTo(slots, used, place);
    MoveIsMove(slots, used, place, r);
    assert ScoreOf(r) == scores[place];
    assert MoveTo(slots, used, used) == slots && scores[used] == ScoreOf(slots);
    forall i: nat, o | IsMove(Shares(slots), used, i, o) ensures scores[i] == Score.Score(o, 0) {
      MoveIsMove(Shares(slots), used, i, o);
      SharesMove(slots, used, i);
    }
  }

  ghost predicate BestTurn<X>(s: seq<Slot<X>>, used: nat, r: seq<Slot<X>>) {
    exists place: nat :: BestMove(s, used, place, r)
  }

  /** The lists that the greedy loop goes through from `used` on: each turn makes the best move of the
      next element, until there is none. */
  ghost predicate GreedyRun<X>(used: nat, lists: seq<seq<Slot<X>>>)
    decreases |lists|
  {
    && lists != [] && |lists| == |lists[0]| - used + 1
    && (|lists| > 1 ==> BestTurn(lists[0], used, lists[1]) && GreedyRun(used + 1, lists[1..]))
  }

  lemma RunBegins<X>(slots: seq<Slot<X>>, used: nat, rest: seq<seq<Slot<X>>>)
    requires GreedyRun(used + 1, rest) && |rest[0]| == |slots| && BestTurn(slots, used, rest[0])
    ensures GreedyRun(used, [slots] + rest)
  {
    assert ([slots] + rest)[1..] == rest;
  }

  /** Placement is the end of such a run. */
  lemma {:induction false} PlacedIsGreedy<X>(slots: seq<Slot<X>>, used: nat) returns (lists: seq<seq<Slot<X>>>)
    requires used <= |slots|
    ensures GreedyRun(used, lists) && lists[0] == slots && lists[|lists| - 1] == Placed(slots, used)
    decreases |slots| - used
  {
    if used == |slots| {
      lists := [slots];
    } else {
      var next := MoveTo(slots, used, Place(slots, used));
      assert BestTurn(slots, used, next) by {
        StepIsBestMove(slots, used);
      }
      var rest := PlacedIsGreedy(next, used + 1);
      RunBegins(slots, used, rest);
      lists := [slots] + rest;
    }
  }

  /** Placement never lowers the score. */
  lemma {:induction false} PlacedScoresNoLess<X>(slots: seq<Slot<X>>, used: nat)
    requires used <= |slots|
    ensures ScoreOf(Placed(slots, used)) >= ScoreOf(slots)
    decreases |slots| - used
  {
    if used < |slots| {
      StepScoresNoLess(slots, used);
      PlacedScoresNoLess(MoveTo(slots, used, Place(slots, used)), used + 1);
    }
  }

  lemma InPlace<X>(s: seq<X>, placed: nat, keep: set<X>)
    requires NoDup(s) && placed <= |s| && keep == set i | 0 <= i < placed :: s[i]
    ensures Only(s, keep) == s[..placed]
    ensures NoneFrom(s, placed, keep)
  {
    assert s == s[..placed] + s[placed..];
    OnlyAppend(s[..placed], s[placed..], keep);
    OnlyAll(s[..placed], keep);
    OnlyNone(s[placed..], keep);
  }

  /** The bricks that are in place at the start end up in the same relative order. */
  lemma PlacedKeepsOrder<X>(slots: seq<Slot<X>>, placed: nat)
    requires NoDup(slots) && placed <= |slots|
    ensures Only(Placed(slots, placed), set i | 0 <= i < placed :: slots[i]) == slots[..placed]
  {
    var keep := set i | 0 <= i < placed :: slots[i];
    InPlace(slots, placed, keep);
    PlacedKeepsOnly(slots, placed, keep);
  }
}
