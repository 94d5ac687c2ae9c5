/** The memory-match rules of the game hub: the deck of eight doubled card
    faces, the flip step and the delayed resolution of two picks
    (app/page.tsx:25-40, 53, 278-362). Each function here is one of the state
    updates the game hands to its state setter. */
module MemoryMatch {
  import opened Wrappers

  /** The eight card faces; a deck holds each of them twice. */
  const CardValues: seq<string> := ["🌟", "🎮", "🎯", "🏆", "🎨", "🎭", "🎪", "🎲"]

  /** The number of pairs in a deck; finding them all wins the game. */
  const PairCount: nat := 8

  /** A card: its id is its position in the dealt deck (`String(idx)`). */
  datatype MemoryCard = MemoryCard(id: nat, value: string, isFlipped: bool, isMatched: bool)

  /** The memory-match record of the session. `startTime` is `None` where
      the record holds no start time. */
  datatype MemoryGameState = MemoryGameState(
    cards: seq<MemoryCard>,
    selectedCards: seq<nat>,
    matchedPairs: nat,
    moves: nat,
    gameWon: bool,
    startTime: Option<int>)

  /** Each value followed by itself (`flatMap(val => [val, val])`). */
  function Doubled(vs: seq<string>): seq<string> {
    seq(2 * |vs|, i requires 0 <= i < 2 * |vs| => vs[i / 2])
  }

  /** Doubling a list doubles the count of every value in it. */
  lemma {:induction false} DoubledMultiset(vs: seq<string>)
    ensures multiset(Doubled(vs)) == multiset(vs) + multiset(vs)
  {
    if vs != [] {
      DoubledMultiset(vs[1..]);
      assert Doubled(vs) == [vs[0], vs[0]] + Doubled(vs[1..]);
      assert vs == [vs[0]] + vs[1..];
    }
  }

  /** `order` is some shuffle of the doubled card faces. */
  predicate IsShuffle(order: seq<string>) {
    multiset(order) == multiset(Doubled(CardValues))
  }

  /** The faces of a row of cards, in order. */
  function Values(cards: seq<MemoryCard>): seq<string> {
    seq(|cards|, i requires 0 <= i < |cards| => cards[i].value)
  }

  /** The face-down, unmatched cards dealt from `order`, the card at position
      `i` having id `i`. */
  function Deal(order: seq<string>): seq<MemoryCard> {
    seq(|order|, i requires 0 <= i < |order| => MemoryCard(i, order[i], false, false))
  }

  /** A sequence without repeats holds each of its elements once. */
  lemma {:induction false} DistinctOnce(vs: seq<string>, v: string)
    requires forall i, j :: 0 <= i < j < |vs| ==> vs[i] != vs[j]
    ensures multiset(vs)[v] == if v in vs then 1 else 0
  {
    if vs != [] {
      assert vs == [vs[0]] + vs[1..];
      DistinctOnce(vs[1..], v);
      assert v in vs[1..] ==> v != vs[0];
    }
  }

  /** The doubled faces: sixteen of them, each face twice. */
  lemma DoubledFaces(v: string)
    ensures |Doubled(CardValues)| == 2 * PairCount
    ensures |multiset(Doubled(CardValues))| == 2 * PairCount
    ensures multiset(Doubled(CardValues))[v] == if v in CardValues then 2 else 0
  {
    var d := Doubled(CardValues);
    assert |d| == |multiset(d)|;
    DoubledMultiset(CardValues);
    CardValuesDistinct();
    DistinctOnce(CardValues, v);
  }

  /** The eight faces are pairwise different. */
  lemma CardValuesDistinct()
    ensures forall i, j :: 0 <= i < j < |CardValues| ==> CardValues[i] != CardValues[j]
  {
  }

  /** Every deck dealt from a shuffle has sixteen cards and holds each of the
      eight faces exactly twice and no other face. */
  lemma DealHoldsEachFaceTwice(order: seq<string>, v: string)
    requires IsShuffle(order)
    ensures |Deal(order)| == 2 * PairCount
    ensures Values(Deal(order)) == order
    ensures multiset(Values(Deal(order)))[v] == if v in CardValues then 2 else 0
  {
    DoubledFaces(v);
    assert |order| == |multiset(order)|;
    assert Values(Deal(order)) == order;
  }

  /** A card is face up without being matched: it is one of the picks. */
  predicate FaceUp(c: MemoryCard) {
    c.isFlipped && !c.isMatched
  }

  /** The number of matched cards. */
  function MatchedCount(cards: seq<MemoryCard>): nat {
    if cards == [] then 0
    else MatchedCount(cards[..|cards| - 1]) + (if cards[|cards| - 1].isMatched then 1 else 0)
  }

  /** Replacing one card changes the matched count by the change in that
      card's matched flag. */
  lemma {:induction false} MatchedCountUpdate(cards: seq<MemoryCard>, i: nat, c: MemoryCard)
    requires i < |cards|
    ensures MatchedCount(cards[i := c]) + (if cards[i].isMatched then 1 else 0) ==
            MatchedCount(cards) + (if c.isMatched then 1 else 0)
  {
    var n := |cards| - 1;
    if i < n {
      MatchedCountUpdate(cards[..n], i, c);
      assert cards[i := c][..n] == cards[..n][i := c];
    } else {
      assert cards[i := c][..n] == cards[..n];
    }
  }

  /** Rows whose matched flags agree have the same matched count. */
  lemma {:induction false} MatchedCountSameFlags(a: seq<MemoryCard>, b: seq<MemoryCard>)
    requires |a| == |b| && forall i :: 0 <= i < |a| ==> a[i].isMatched == b[i].isMatched
    ensures MatchedCount(a) == MatchedCount(b)
  {
    if a != [] {
      MatchedCountSameFlags(a[..|a| - 1], b[..|b| - 1]);
    }
  }

  /** At most every card is matched, and only when every card is matched
      does the count reach the number of cards. */
  lemma {:induction false} MatchedCountBound(cards: seq<MemoryCard>)
    ensures MatchedCount(cards) <= |cards|
    ensures MatchedCount(cards) == |cards| ==> forall i :: 0 <= i < |cards| ==> cards[i].isMatched
  {
    if cards != [] {
      var n := |cards| - 1;
      MatchedCountBound(cards[..n]);
      if MatchedCount(cards) == |cards| {
        forall i | 0 <= i < |cards| ensures cards[i].isMatched {
          if i < n {
            assert cards[..n][i] == cards[i];
          }
        }
      }
    }
  }

  /** The invariant of the memory-match record: there are no cards before
      the first deal and sixteen afterwards, with ids equal to their positions; matched cards stay face up; the
      selection holds at most two distinct ids, exactly those of the face-up
      unmatched cards; `matchedPairs` counts the matched pairs, and the game
      is won exactly when all eight pairs are matched. */
  predicate Valid(s: MemoryGameState) {
    (|s.cards| == 0 || |s.cards| == 2 * PairCount) &&
    (forall i :: 0 <= i < |s.cards| ==> s.cards[i].id == i) &&
    (forall i :: 0 <= i < |s.cards| ==> s.cards[i].isMatched ==> s.cards[i].isFlipped) &&
    |s.selectedCards| <= 2 &&
    (forall k :: 0 <= k < |s.selectedCards| ==>
       s.selectedCards[k] < |s.cards| && FaceUp(s.cards[s.selectedCards[k]])) &&
    (|s.selectedCards| == 2 ==> s.selectedCards[0] != s.selectedCards[1]) &&
    (forall i :: 0 <= i < |s.cards| && FaceUp(s.cards[i]) ==> i in s.selectedCards) &&
    MatchedCount(s.cards) == 2 * s.matchedPairs &&
    (s.gameWon <==> s.matchedPairs == PairCount)
  }

  /** The matched pairs never exceed the eight in a deck. */
  lemma MatchedPairsBound(s: MemoryGameState)
    requires Valid(s)
    ensures s.matchedPairs <= PairCount
  {
    MatchedCountBound(s.cards);
  }

  /** The first card with id `id`, if any (`cards.find(c => c.id === id)`). */
  function FindCard(cards: seq<MemoryCard>, id: nat): (r: Option<MemoryCard>)
    ensures r.Some? ==> r.value in cards && r.value.id == id
    ensures r.None? ==> forall c :: c in cards ==> c.id != id
  {
    if cards == [] then None
    else if cards[0].id == id then Some(cards[0])
    else FindCard(cards[1..], id)
  }

  /** The card `FindCard` returns is the first one with id `id`: it sits at a
      position before which no card has that id. */
  lemma {:induction false} FindCardFirst(cards: seq<MemoryCard>, id: nat)
    ensures FindCard(cards, id).Some? ==>
      exists i :: 0 <= i < |cards| && cards[i] == FindCard(cards, id).value &&
        forall j :: 0 <= j < i ==> cards[j].id != id
  {
    if cards != [] && cards[0].id != id {
      var rest := cards[1..];
      FindCardFirst(rest, id);
      if FindCard(rest, id).Some? {
        var i :| 0 <= i < |rest| && rest[i] == FindCard(rest, id).value &&
          forall j :: 0 <= j < i ==> rest[j].id != id;
        assert cards[i + 1] == FindCard(cards, id).value;
        assert forall j :: 0 <= j < i + 1 ==> cards[j].id != id by {
          forall j | 0 <= j < i + 1
            ensures cards[j].id != id
          {
            if j > 0 {
              assert cards[j] == rest[j - 1];
            }
          }
        }
      }
    }
  }

  /** With ids equal to positions, the card with id `id` is the one at
      position `id`. */
  lemma FindCardById(cards: seq<MemoryCard>, id: nat)
    requires forall i :: 0 <= i < |cards| ==> cards[i].id == i
    ensures FindCard(cards, id) == if id < |cards| then Some(cards[id]) else None
  {
    var r := FindCard(cards, id);
    if r.Some? {
      var i :| 0 <= i < |cards| && cards[i] == r.value;
    }
  }

  /** A click on card `id` is ignored: there is no such card, it is face up
      or matched, or two cards are picked already. */
  predicate ClickIgnored(s: MemoryGameState, id: nat) {
    id >= |s.cards| || s.cards[id].isFlipped || s.cards[id].isMatched || |s.selectedCards| >= 2
  }

  /** The flip step of a click on card `id`: an ignored click changes nothing;
      otherwise that card alone turns face up and its id joins the picks. */
  function Click(s: MemoryGameState, id: nat): (r: MemoryGameState)
    requires Valid(s)
    ensures Valid(r)
    ensures ClickIgnored(s, id) ==> r == s
    ensures !ClickIgnored(s, id) ==>
      r == s.(cards := s.cards[id := s.cards[id].(isFlipped := true)],
              selectedCards := s.selectedCards + [id])
  {
    FindCardById(s.cards, id);
    match FindCard(s.cards, id)
    case None => s
    case Some(card) =>
      if card.isFlipped || card.isMatched || |s.selectedCards| >= 2 then s
      else
        var newCards := seq(|s.cards|, i requires 0 <= i < |s.cards| =>
          var c := s.cards[i]; if c.id == id then c.(isFlipped := true) else c);
        assert newCards == s.cards[id := s.cards[id].(isFlipped := true)];
        MatchedCountSameFlags(newCards, s.cards);
        var r := s.(cards := newCards, selectedCards := s.selectedCards + [id]);
        assert Values(newCards) == Values(s.cards);
        assert forall k :: 0 <= k < |s.selectedCards| ==> s.selectedCards[k] != id;
        r
  }

  /** The second timer callback: every card that is not matched turns face
      down again, the picks are cleared and a move is counted. */
  function ResolveMismatch(prev: MemoryGameState): (r: MemoryGameState) {
    prev.(cards := seq(|prev.cards|, i requires 0 <= i < |prev.cards| =>
                         prev.cards[i].(isFlipped := prev.cards[i].isMatched)),
          selectedCards := [],
          moves := prev.moves + 1)
  }

  /** The cards with ids `first` and `second` marked matched. */
  function MarkMatched(cards: seq<MemoryCard>, first: nat, second: nat): seq<MemoryCard> {
    seq(|cards|, i requires 0 <= i < |cards| =>
      var c := cards[i]; if c.id == first || c.id == second then c.(isMatched := true) else c)
  }

  /** The first timer callback, as the game writes it: the new record is
      spread from the updated card array instead of from the previous
      record, so every field the callback does not set, the start time
      among them, is lost. */
  function ResolveMatchAsWritten(prev: MemoryGameState, first: nat, second: nat): (r: MemoryGameState) {
    var newMatched := prev.matchedPairs + 1;
    MemoryGameState(MarkMatched(prev.cards, first, second), [], newMatched, prev.moves + 1,
                    newMatched == PairCount, None)
  }

  /** The as-written callback drops a recorded start time. */
  lemma ResolveMatchAsWrittenLosesStartTime(prev: MemoryGameState, first: nat, second: nat)
    requires prev.startTime.Some?
    ensures ResolveMatchAsWritten(prev, first, second).startTime != prev.startTime
  {
  }

  /** The first timer callback, spread from the previous record: the two
      picked cards become matched, the picks are cleared, the pair and the
      move are counted, the game is won when the eighth pair is found, and
      the start time is kept. */
  function ResolveMatch(prev: MemoryGameState, first: nat, second: nat): (r: MemoryGameState)
    ensures r.startTime == prev.startTime
  {
    var newMatched := prev.matchedPairs + 1;
    prev.(cards := MarkMatched(prev.cards, first, second), selectedCards := [],
          matchedPairs := newMatched, moves := prev.moves + 1, gameWon := newMatched == PairCount)
  }

  /** The two picks show the same face (`card1.value === card2.value`). */
  predicate PicksMatch(s: MemoryGameState)
    requires |s.selectedCards| == 2
  {
    var card1 := FindCard(s.cards, s.selectedCards[0]);
    var card2 := FindCard(s.cards, s.selectedCards[1]);
    card1.Some? && card2.Some? && card1.value.value == card2.value.value
  }

  /** The delayed resolution of two picks. Equal faces: both cards become
      matched, one more pair is found, and the game is won exactly when that
      makes eight. Different faces: every card's face-up flag goes back to
      its matched flag. Either way the picks are cleared and one move is
      counted. A match goes through the corrected callback `ResolveMatch`,
      so the start time is kept where the code as written drops it. */
  function Resolve(s: MemoryGameState): (r: MemoryGameState)
    requires Valid(s) && |s.selectedCards| == 2
    ensures Valid(r)
    ensures r.selectedCards == [] && r.moves == s.moves + 1 && r.startTime == s.startTime
    ensures |r.cards| == |s.cards| && Values(r.cards) == Values(s.cards)
    ensures PicksMatch(s) ==>
      r.matchedPairs == s.matchedPairs + 1 && (r.gameWon <==> r.matchedPairs == PairCount) &&
      forall i :: 0 <= i < |s.cards| ==>
        r.cards[i].isMatched == (s.cards[i].isMatched || i in s.selectedCards) &&
        r.cards[i].isFlipped == s.cards[i].isFlipped
    ensures !PicksMatch(s) ==>
      r.matchedPairs == s.matchedPairs && r.gameWon == s.gameWon &&
      forall i :: 0 <= i < |s.cards| ==>
        r.cards[i].isFlipped == s.cards[i].isMatched && r.cards[i].isMatched == s.cards[i].isMatched
  {
    var first, second := s.selectedCards[0], s.selectedCards[1];
    FindCardById(s.cards, first);
    FindCardById(s.cards, second);
    if PicksMatch(s) then
      MatchStep(s);
      ResolveMatch(s, first, second)
    else
      MismatchStep(s);
      ResolveMismatch(s)
  }

  /** Marking two different cards matched, with ids equal to positions,
      updates exactly those two positions and adds two to the matched count
      when neither was matched before. */
  lemma MarkMatchedCount(cards: seq<MemoryCard>, first: nat, second: nat)
    requires forall i :: 0 <= i < |cards| ==> cards[i].id == i
    requires first < |cards| && second < |cards| && first != second
    requires !cards[first].isMatched && !cards[second].isMatched
    ensures |MarkMatched(cards, first, second)| == |cards|
    ensures MatchedCount(MarkMatched(cards, first, second)) == MatchedCount(cards) + 2
  {
    var n := cards[first := cards[first].(isMatched := true)];
    assert MarkMatched(cards, first, second) == n[second := n[second].(isMatched := true)];
    MatchedCountUpdate(cards, first, cards[first].(isMatched := true));
    MatchedCountUpdate(n, second, n[second].(isMatched := true));
  }

  /** Resolving two picks with equal faces keeps the invariant and marks
      exactly the two picked cards matched. */
  lemma MatchStep(s: MemoryGameState)
    requires Valid(s) && |s.selectedCards| == 2
    ensures var r := ResolveMatch(s, s.selectedCards[0], s.selectedCards[1]);
      Valid(r) && |r.cards| == |s.cards| && Values(r.cards) == Values(s.cards) &&
      forall i :: 0 <= i < |s.cards| ==>
        r.cards[i].isMatched == (s.cards[i].isMatched || i in s.selectedCards) &&
        r.cards[i].isFlipped == s.cards[i].isFlipped
  {
    var first, second := s.selectedCards[0], s.selectedCards[1];
    var r := ResolveMatch(s, first, second);
    MarkMatchedCount(s.cards, first, second);
    assert Values(r.cards) == Values(s.cards);
  }

  /** Resolving two picks with different faces keeps the invariant and turns
      every unmatched card face down. */
  lemma MismatchStep(s: MemoryGameState)
    requires Valid(s) && |s.selectedCards| == 2
    ensures var r := ResolveMismatch(s);
      Valid(r) && |r.cards| == |s.cards| && Values(r.cards) == Values(s.cards)
  {
    var r := ResolveMismatch(s);
    MatchedCountSameFlags(r.cards, s.cards);
    assert Values(r.cards) == Values(s.cards);
  }

  /** A new game dealt from `order` at time `now`: face-down cards, no picks,
      no pairs, no moves. */
  function NewGame(order: seq<string>, now: int): (r: MemoryGameState)
    requires IsShuffle(order)
    ensures Valid(r)
    ensures Values(r.cards) == order
    ensures forall i :: 0 <= i < |r.cards| ==> !r.cards[i].isFlipped && !r.cards[i].isMatched
    ensures r.selectedCards == [] && r.matchedPairs == 0 && r.moves == 0 && !r.gameWon
    ensures r.startTime == Some(now)
  {
    var cards := Deal(order);
    DealHoldsEachFaceTwice(order, "");
    NoneMatchedCount(cards);
    assert Values(cards) == order;
    MemoryGameState(cards, [], 0, 0, false, Some(now))
  }

  /** A row with no matched card has matched count zero. */
  lemma {:induction false} NoneMatchedCount(cards: seq<MemoryCard>)
    requires forall i :: 0 <= i < |cards| ==> !cards[i].isMatched
    ensures MatchedCount(cards) == 0
  {
    if cards != [] {
      NoneMatchedCount(cards[..|cards| - 1]);
    }
  }

  /** Once all eight pairs are found every card is matched, so every click
      is ignored. */
  lemma WonGameIgnoresClicks(s: MemoryGameState, id: nat)
    requires Valid(s) && s.gameWon
    ensures Click(s, id) == s
  {
    MatchedCountBound(s.cards);
    MatchedPairsBound(s);
  }
}
