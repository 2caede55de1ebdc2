/** The simple cyclic reviewer (src/pages/Review.jsx): the cards of a deck
    in creation order, shown one at a time, front first; answering hides
    the back and moves to the next card, wrapping round at the end. */
module Review {
  import opened Common

  /** The index after an answer: the next card, the first after the last,
      and 0 when there are no cards. */
  function Advance(i: nat, n: nat): (r: nat)
    ensures n == 0 ==> r == 0
    ensures n > 0 ==> r < n
    ensures n > 0 && i < n - 1 ==> r == i + 1
    ensures n > 0 && i == n - 1 ==> r == 0
  {
    if n == 0 then 0 else (i + 1) % n
  }

  /** The index after `k` answers. */
  function AdvanceTimes(i: nat, n: nat, k: nat): nat
    decreases k
  {
    if k == 0 then i else Advance(AdvanceTimes(i, n, k - 1), n)
  }

  lemma ZeroMultiple(d: int, n: int)
    requires n > 0 && -n < d * n < n
    ensures d == 0
  {
    assert d >= 1 ==> d * n == n + (d - 1) * n;
    assert d >= 1 ==> (d - 1) * n >= 0;
    assert d <= -1 ==> d * n == -n + (d + 1) * n;
    assert d <= -1 ==> (d + 1) * n <= 0;
  }

  lemma ModUnique(a: int, n: int, q: int, r: int)
    requires n > 0 && a == q * n + r && 0 <= r < n
    ensures a % n == r
  {
    var q', r' := a / n, a % n;
    assert a == q' * n + r';
    assert (q - q') * n == q * n - q' * n;
    ZeroMultiple(q - q', n);
  }

  lemma ModNext(a: nat, n: nat)
    requires n > 0
    ensures (a % n + 1) % n == (a + 1) % n
  {
    var q, m := a / n, a % n;
    assert a == q * n + m;
    if m + 1 < n {
      ModUnique(a + 1, n, q, m + 1);
      ModUnique(m + 1, n, 0, m + 1);
    } else {
      ModUnique(a + 1, n, q + 1, 0);
      ModUnique(m + 1, n, 1, 0);
    }
  }

  /** `k` answers from a valid index `i` lead to `(i + k) mod n`. */
  lemma {:induction false} AdvanceTimesMod(i: nat, n: nat, k: nat)
    requires i < n
    ensures AdvanceTimes(i, n, k) == (i + k) % n
    decreases k
  {
    if k > 0 {
      AdvanceTimesMod(i, n, k - 1);
      ModNext(i + k - 1, n);
    }
  }

  /** The session is cyclic: as many answers as cards bring the index
      back to where it was. */
  lemma RoundTrip(i: nat, n: nat)
    requires i < n
    ensures AdvanceTimes(i, n, n) == i
  {
    AdvanceTimesMod(i, n, n);
    ModUnique(i + n, n, 1, i);
  }

  /** What the page renders. */
  datatype Screen =
    | Loading
    | NoCards
    | Showing(card: Card, showAnswer: bool, position: nat, total: nat)

  class CyclicReview {
    var cards: seq<Card>
    var currentIndex: nat
    var showAnswer: bool
    var loading: bool

    /** The index names a card whenever there is one. */
    ghost predicate Valid()
      reads this
    {
      (cards == [] ==> currentIndex == 0) && (cards != [] ==> currentIndex < |cards|)
    }

    /** Mount: without a deck identifier nothing loads and the page keeps
        showing that it is loading; otherwise `reply` is the backend's
        answer to the select, and an error leaves the page empty. */
    constructor (hasDeckId: bool, reply: Reply<seq<Card>>)
      ensures Valid()
      ensures currentIndex == 0 && !showAnswer
      ensures !hasDeckId ==> loading && cards == []
      ensures hasDeckId ==> !loading
      ensures hasDeckId && reply.Failed? ==> cards == []
      ensures hasDeckId && reply.Data? ==> cards == reply.data.GetOr([])
    {
      currentIndex := 0;
      showAnswer := false;
      if !hasDeckId {
        cards := [];
        loading := true;
      } else {
        loading := false;
        match reply {
          case Failed(_) => cards := [];
          case Data(data) => cards := data.GetOr([]);
        }
      }
    }

    function View(): (v: Screen)
      reads this
      requires Valid()
      ensures v.Loading? <==> loading
      ensures v.NoCards? <==> !loading && cards == []
      ensures v.Showing? ==>
        v.card == cards[currentIndex] && v.showAnswer == showAnswer && 1 <= v.position <= v.total == |cards|
      ensures v.Showing? ==> v.position == currentIndex + 1
    {
      if loading then Loading
      else if cards == [] then NoCards
      else Showing(cards[currentIndex], showAnswer, currentIndex + 1, |cards|)
    }

    /** The "Correct" and "Incorrect" buttons are on screen. */
    predicate AnswersOffered()
      reads this
    {
      !loading && cards != [] && showAnswer
    }

    /** The "Show Answer" button is on screen. */
    predicate ShowAnswerOffered()
      reads this
    {
      !loading && cards != [] && !showAnswer
    }

    /** The "Show Answer" button. */
    method ShowAnswer()
      requires Valid()
      modifies this
      ensures Valid()
      ensures showAnswer
      ensures cards == old(cards) && currentIndex == old(currentIndex) && loading == old(loading)
      ensures old(ShowAnswerOffered()) ==> AnswersOffered() && !ShowAnswerOffered()
    {
      showAnswer := true;
    }

    /** `handleAnswer`: whatever the answer, hide the back and move on.
        Nothing is recorded. */
    method HandleAnswer(isCorrect: bool)
      requires Valid()
      modifies this
      ensures Valid()
      ensures !showAnswer && !AnswersOffered()
      ensures currentIndex == Advance(old(currentIndex), |cards|)
      ensures cards == old(cards) && loading == old(loading)
    {
      showAnswer := false;
      currentIndex := if |cards| == 0 then 0 else (currentIndex + 1) % |cards|;
    }
  }
}
