/** The sequential review of one deck (src/pages/ReviewDeck.jsx): every
    card once, in stored or shuffled order, each answer counted and
    written back to the card's row, and a score at the end. */
module ReviewDeck {
  import opened Common

  // ------------------------------------------------------------ shuffle

  /** `[...s].sort(() => Math.random() - 0.5)`. The order a random
      comparator produces depends on the engine's sort and on the random
      numbers; `picks` stands for both: each pick chooses, modulo the
      number left, the next element among those not yet placed. */
  function Shuffled<T>(s: seq<T>, picks: seq<nat>): seq<T>
    decreases |s|
  {
    if s == [] then []
    else
      var k := if picks == [] then 0 else picks[0] % |s|;
      [s[k]] + Shuffled(s[..k] + s[k + 1..], if picks == [] then [] else picks[1..])
  }

  /** Taking out the element at `k` leaves the rest. */
  lemma RemoveAt<T>(s: seq<T>, k: nat)
    requires k < |s|
    ensures multiset(s) == multiset{s[k]} + multiset(s[..k] + s[k + 1..])
  {
    assert s == s[..k] + [s[k]] + s[k + 1..];
    assert multiset(s) == multiset(s[..k]) + multiset{s[k]} + multiset(s[k + 1..]);
  }

  lemma ModSmall(k: nat, n: nat)
    requires k < n
    ensures k % n == k
  {
  }

  /** Shuffling loses no card and duplicates none. */
  lemma {:induction false} ShuffledPermutes<T>(s: seq<T>, picks: seq<nat>)
    ensures multiset(Shuffled(s, picks)) == multiset(s)
    decreases |s|
  {
    if s != [] {
      var k := if picks == [] then 0 else picks[0] % |s|;
      var rest := s[..k] + s[k + 1..];
      ShuffledPermutes(rest, if picks == [] then [] else picks[1..]);
      RemoveAt(s, k);
    }
  }

  lemma ShuffledStep<T>(s: seq<T>, k: nat, p: seq<nat>)
    requires k < |s|
    ensures Shuffled(s, [k] + p) == [s[k]] + Shuffled(s[..k] + s[k + 1..], p)
  {
    var picks := [k] + p;
    assert picks[0] == k && picks[1..] == p;
    ModSmall(k, |s|);
  }

  lemma RemoveMatching<T>(s: seq<T>, t: seq<T>, k: nat)
    requires multiset(t) == multiset(s) && t != [] && k < |s| && s[k] == t[0]
    ensures multiset(s[..k] + s[k + 1..]) == multiset(t[1..])
  {
    RemoveAt(s, k);
    assert t == [t[0]] + t[1..];
    assert multiset(t) == multiset{t[0]} + multiset(t[1..]);
    var rest := multiset(s[..k] + s[k + 1..]);
    assert (multiset{t[0]} + rest) - multiset{t[0]} == rest;
    assert (multiset{t[0]} + multiset(t[1..])) - multiset{t[0]} == multiset(t[1..]);
  }

  /** Every order of the cards is one the shuffle can produce. */
  lemma {:induction false} ShuffleReaches<T>(s: seq<T>, t: seq<T>)
    requires multiset(t) == multiset(s)
    ensures exists picks :: Shuffled(s, picks) == t
    decreases |s|
  {
    if t == [] {
      assert |s| == |multiset(s)| == 0;
      assert Shuffled(s, []) == t;
    } else {
      assert t[0] in multiset(s);
      var k :| 0 <= k < |s| && s[k] == t[0];
      var rest := s[..k] + s[k + 1..];
      RemoveMatching(s, t, k);
      ShuffleReaches(rest, t[1..]);
      var p :| Shuffled(rest, p) == t[1..];
      ShuffledStep(s, k, p);
      assert Shuffled(s, [k] + p) == t;
    }
  }

  /** The load effect: only an answer without error and with data replaces
      the cards, shuffled when shuffling is on. */
  function LoadedCards(reply: Reply<seq<Card>>, shuffle: bool, picks: seq<nat>, current: seq<Card>): (r: seq<Card>)
    ensures (reply.Failed? || reply.data.None?) ==> r == current
    ensures reply.Data? && reply.data.Some? && !shuffle ==> r == reply.data.value
    ensures reply.Data? && reply.data.Some? ==> multiset(r) == multiset(reply.data.value)
  {
    match reply
    case Failed(_) => current
    case Data(None) => current
    case Data(Some(data)) =>
      if shuffle then (ShuffledPermutes(data, picks); Shuffled(data, picks)) else data
  }

  // ------------------------------------------------------------ answers

  /** The columns an answer writes; a `None` column is not written. */
  datatype CardUpdate = CardUpdate(attempts: nat, correct: Option<nat>, incorrect: Option<nat>)

  /** The update `markCorrect` / `markIncorrect` send for `card`, computed
      from the card as it was loaded. */
  function AnswerUpdate(card: Card, isCorrect: bool): (u: CardUpdate)
    ensures u.attempts == OrZero(card.attempts) + 1
    ensures isCorrect ==> u.correct == Some(OrZero(card.correct) + 1) && u.incorrect.None?
    ensures !isCorrect ==> u.incorrect == Some(OrZero(card.incorrect) + 1) && u.correct.None?
  {
    if isCorrect then CardUpdate(OrZero(card.attempts) + 1, Some(OrZero(card.correct) + 1), None)
    else CardUpdate(OrZero(card.attempts) + 1, None, Some(OrZero(card.incorrect) + 1))
  }

  /** The row after the backend applies `u` to it. */
  function Apply(card: Card, u: CardUpdate): (r: Card)
    ensures r.id == card.id && r.deckId == card.deckId && r.front == card.front
    ensures r.back == card.back && r.starred == card.starred
    ensures r.attempts == Some(u.attempts)
    ensures u.correct.None? ==> r.correct == card.correct
    ensures u.correct.Some? ==> r.correct == u.correct
    ensures u.incorrect.None? ==> r.incorrect == card.incorrect
    ensures u.incorrect.Some? ==> r.incorrect == u.incorrect
  {
    card.(attempts := Some(u.attempts),
          correct := if u.correct.Some? then u.correct else card.correct,
          incorrect := if u.incorrect.Some? then u.incorrect else card.incorrect)
  }

  /** An answer applied to the row it was computed from counts one more
      attempt and exactly one more correct or incorrect answer, so a row
      whose attempts are the sum of the other two keeps that balance. */
  lemma AnswerKeepsBalance(card: Card, isCorrect: bool)
    ensures var r := Apply(card, AnswerUpdate(card, isCorrect));
      && OrZero(r.attempts) == OrZero(card.attempts) + 1
      && OrZero(r.correct) + OrZero(r.incorrect) == OrZero(card.correct) + OrZero(card.incorrect) + 1
      && (Balanced(card) ==> Balanced(r))
  {
  }

  /** The loaded cards are never refreshed, so after "Restart Review" an
      answer is computed from the counters loaded before the first pass.
      Given the same answer as in the first pass, the update is the one
      sent then, and applying it once more leaves the row as it was. */
  lemma ResentUpdateChangesNothing(card: Card, isCorrect: bool)
    ensures var u := AnswerUpdate(card, isCorrect);
      Apply(Apply(card, u), u) == Apply(card, u)
  {
  }

  /** Given the other answer in the second pass, the stale update breaks
      the balance: the first pass's `correct` stays and `incorrect` is
      written from the old value as well, so the row counts one attempt
      more than before but two answers more. */
  lemma StaleResendUnbalances(card: Card)
    requires Balanced(card)
    ensures var once := Apply(card, AnswerUpdate(card, true));
      var twice := Apply(once, AnswerUpdate(card, false));
      && OrZero(twice.attempts) == OrZero(card.attempts) + 1
      && OrZero(twice.correct) + OrZero(twice.incorrect) == OrZero(card.attempts) + 2
      && !Balanced(twice)
  {
  }

  // ------------------------------------------------------------ page

  /** What the page renders. */
  datatype Screen =
    | Results(correct: nat, incorrect: nat, score: int)
    | NoCards
    | Reviewing(card: Card, showBack: bool, position: nat, total: nat)

  class ReviewSession {
    var cards: seq<Card>
    var index: nat
    var showBack: bool
    var correctCount: nat
    var incorrectCount: nat
    var finished: bool
    var shuffle: bool

    /** `index` names a card whenever there is one; each card before it
        (and, once finished, the last one too) was answered exactly once. */
    ghost predicate Valid()
      reads this
    {
      && (cards == [] ==> index == 0 && !finished)
      && (cards != [] ==> index < |cards|)
      && (finished ==> index == |cards| - 1)
      && correctCount + incorrectCount == index + (if finished then 1 else 0)
    }

    /** Mount: the cards in stored order. */
    constructor (reply: Reply<seq<Card>>)
      ensures Valid()
      ensures cards == LoadedCards(reply, false, [], [])
      ensures index == 0 && !showBack && correctCount == 0 && incorrectCount == 0
      ensures !finished && !shuffle
    {
      cards := LoadedCards(reply, false, [], []);
      index := 0;
      showBack := false;
      correctCount := 0;
      incorrectCount := 0;
      finished := false;
      shuffle := false;
    }

    /** The score of the results screen: correct answers over cards. */
    function Score(): (r: int)
      reads this
      requires Valid() && finished
      ensures 0 <= r <= 100
      ensures correctCount == |cards| ==> r == 100
      ensures correctCount == 0 ==> r == 0
    {
      PercentBounds(correctCount, |cards|);
      Percent(correctCount, |cards|)
    }

    function View(): (v: Screen)
      reads this
      requires Valid()
      ensures finished <==> v.Results?
      ensures v.Results? ==> v.correct + v.incorrect == |cards| && 0 <= v.score <= 100
      ensures v.NoCards? <==> !finished && cards == []
      ensures v.Reviewing? ==> v.card == cards[index] && 1 <= v.position <= v.total == |cards|
      ensures v.Reviewing? ==> v.showBack == showBack && v.position == index + 1
      ensures v.Results? ==> v.correct == correctCount && v.incorrect == incorrectCount && v.score == Score()
    {
      if finished then Results(correctCount, incorrectCount, Score())
      else if cards == [] then NoCards
      else Reviewing(cards[index], showBack, index + 1, |cards|)
    }

    /** Clicking the card turns it over. */
    method Flip()
      requires Valid() && View().Reviewing?
      modifies this
      ensures Valid()
      ensures showBack == !old(showBack)
      ensures cards == old(cards) && index == old(index) && finished == old(finished)
      ensures correctCount == old(correctCount) && incorrectCount == old(incorrectCount)
      ensures shuffle == old(shuffle)
    {
      showBack := !showBack;
    }

    /** `nextCard`: hide the back, then finish at the last card or move on. */
    method NextCard()
      requires cards != [] && index < |cards| && !finished
      modifies this
      ensures !showBack
      ensures old(index) == |cards| - 1 ==> finished && index == old(index)
      ensures old(index) < |cards| - 1 ==> !finished && index == old(index) + 1
      ensures cards == old(cards) && shuffle == old(shuffle)
      ensures correctCount == old(correctCount) && incorrectCount == old(incorrectCount)
    {
      showBack := false;
      if index == |cards| - 1 {
        finished := true;
      } else {
        index := index + 1;
      }
    }

    /** "Correct": counts the answer, returns the row identifier and the
        update written to it, and moves on. */
    method MarkCorrect() returns (cardId: string, update: CardUpdate)
      requires Valid() && View().Reviewing?
      modifies this
      ensures Valid()
      ensures cardId == old(cards[index].id) && update == AnswerUpdate(old(cards[index]), true)
      ensures correctCount == old(correctCount) + 1 && incorrectCount == old(incorrectCount)
      ensures cards == old(cards) && shuffle == old(shuffle) && !showBack
      ensures old(index) == |cards| - 1 ==> finished && index == old(index)
      ensures old(index) < |cards| - 1 ==> !finished && index == old(index) + 1
    {
      var card := cards[index];
      correctCount := correctCount + 1;
      cardId, update := card.id, AnswerUpdate(card, true);
      NextCard();
    }

    /** "Incorrect": as `MarkCorrect`, counting an incorrect answer. */
    method MarkIncorrect() returns (cardId: string, update: CardUpdate)
      requires Valid() && View().Reviewing?
      modifies this
      ensures Valid()
      ensures cardId == old(cards[index].id) && update == AnswerUpdate(old(cards[index]), false)
      ensures incorrectCount == old(incorrectCount) + 1 && correctCount == old(correctCount)
      ensures cards == old(cards) && shuffle == old(shuffle) && !showBack
      ensures old(index) == |cards| - 1 ==> finished && index == old(index)
      ensures old(index) < |cards| - 1 ==> !finished && index == old(index) + 1
    {
      var card := cards[index];
      incorrectCount := incorrectCount + 1;
      cardId, update := card.id, AnswerUpdate(card, false);
      NextCard();
    }

    /** "Restart Review" on the results screen: the same cards, from the
        first, with the counters cleared. */
    method Restart()
      requires Valid() && finished
      modifies this
      ensures Valid()
      ensures cards == old(cards) && shuffle == old(shuffle)
      ensures index == 0 && !finished && !showBack && correctCount == 0 && incorrectCount == 0
    {
      correctCount := 0;
      incorrectCount := 0;
      index := 0;
      finished := false;
      showBack := false;
    }

    /** The shuffle checkbox: flips shuffling, starts over and reloads the
        deck; `reply` is the backend's answer to that reload and `picks`
        the shuffle's choices. The card side shown is left as it was. */
    method ToggleShuffle(reply: Reply<seq<Card>>, picks: seq<nat>)
      requires Valid() && View().Reviewing?
      modifies this
      ensures Valid()
      ensures shuffle == !old(shuffle)
      ensures cards == LoadedCards(reply, shuffle, picks, old(cards))
      ensures index == 0 && !finished && correctCount == 0 && incorrectCount == 0
      ensures showBack == old(showBack)
    {
      shuffle := !shuffle;
      index := 0;
      finished := false;
      correctCount := 0;
      incorrectCount := 0;
      cards := LoadedCards(reply, shuffle, picks, cards);
    }

    /** The progress bar's width in percent while reviewing. */
    function Progress(): (r: real)
      reads this
      requires Valid() && View().Reviewing?
      ensures 0.0 <= r < 100.0
      ensures index == 0 ==> r == 0.0
    {
      var p := index as real / |cards| as real;
      assert p * |cards| as real == index as real;
      assert p < 1.0;
      p * 100.0
    }
  }
}
