/** The statistics of one deck (src/pages/DeckStats.jsx): counts and sums
    over the deck's cards, the overall accuracy, and the five cards with
    the lowest accuracy among those attempted at least three times. */
module DeckStats {
  import opened Common
  import opened Seqs

  // ------------------------------------------------------------ counts

  predicate IsStarred(c: Card) {
    c.starred == Some(true)
  }

  /** `cards.filter((c) => c.starred === true).length`: a missing or false
      flag does not count. */
  function StarredCount(cards: seq<Card>): (r: nat)
    ensures r <= |cards|
    ensures (forall i :: 0 <= i < |cards| ==> IsStarred(cards[i])) ==> r == |cards|
  {
    |Filter(cards, (c: Card) => IsStarred(c))|
  }

  /** Counting distributes over concatenation, one card at a time. */
  lemma StarredCountAppend(a: seq<Card>, b: seq<Card>)
    ensures StarredCount(a + b) == StarredCount(a) + StarredCount(b)
  {
    FilterAppend(a, b, (c: Card) => IsStarred(c));
  }

  lemma StarredCountOne(c: Card)
    ensures StarredCount([c]) == if IsStarred(c) then 1 else 0
  {
    assert [c][1..] == [];
  }

  /** `cards.reduce((sum, c) => sum + (c.field || 0), 0)`. */
  function Total(cards: seq<Card>, field: Card -> Option<nat>): nat
    decreases |cards|
  {
    if cards == [] then 0 else OrZero(field(cards[0])) + Total(cards[1..], field)
  }

  function TotalAttempts(cards: seq<Card>): nat {
    Total(cards, (c: Card) => c.attempts)
  }

  function TotalCorrect(cards: seq<Card>): nat {
    Total(cards, (c: Card) => c.correct)
  }

  function TotalIncorrect(cards: seq<Card>): nat {
    Total(cards, (c: Card) => c.incorrect)
  }

  /** A sum over two lists is the sum of the two sums. */
  lemma {:induction false} TotalAppend(a: seq<Card>, b: seq<Card>, field: Card -> Option<nat>)
    ensures Total(a + b, field) == Total(a, field) + Total(b, field)
    decreases |a|
  {
    if a == [] {
      assert a + b == b;
    } else {
      assert (a + b)[1..] == a[1..] + b;
      TotalAppend(a[1..], b, field);
    }
  }

  /** Each card's counter, missing read as 0, is part of the total. */
  lemma {:induction false} TotalBoundsEach(cards: seq<Card>, field: Card -> Option<nat>, i: nat)
    requires i < |cards|
    ensures OrZero(field(cards[i])) <= Total(cards, field)
    decreases |cards|
  {
    if i > 0 {
      TotalBoundsEach(cards[1..], field, i - 1);
    }
  }

  /** When every card's attempts are its correct plus incorrect answers,
      so are the totals. */
  lemma {:induction false} BalancedTotals(cards: seq<Card>)
    requires forall i :: 0 <= i < |cards| ==> Balanced(cards[i])
    ensures TotalAttempts(cards) == TotalCorrect(cards) + TotalIncorrect(cards)
    decreases |cards|
  {
    if cards != [] {
      BalancedTotals(cards[1..]);
      assert Balanced(cards[0]);
    }
  }

  // ------------------------------------------------------------ accuracy

  /** The accuracy box: 0 without attempts, otherwise the rounded
      percentage of correct answers among attempts. */
  function Accuracy(cards: seq<Card>): int {
    if TotalAttempts(cards) > 0 then Percent(TotalCorrect(cards), TotalAttempts(cards)) else 0
  }

  /** With attempts, the accuracy `r` is the integer nearest to
      100 * correct / attempts, halves rounded up:
      r - 1/2 <= 100 * correct / attempts < r + 1/2. */
  lemma AccuracyRounds(cards: seq<Card>)
    ensures TotalAttempts(cards) == 0 ==> Accuracy(cards) == 0
    ensures var a, c, r := TotalAttempts(cards), TotalCorrect(cards), Accuracy(cards);
      a > 0 ==> 2 * a * r - a <= 200 * c < 2 * a * r + a
  {
    var a, c := TotalAttempts(cards), TotalCorrect(cards);
    if a > 0 {
      PercentExact(c, a);
      var r := Accuracy(cards);
      assert r == (200 * c + a) / (2 * a);
      assert r * (2 * a) <= 200 * c + a < r * (2 * a) + 2 * a;
    }
  }

  /** With no more correct answers than attempts the accuracy is a
      percentage; balanced cards always qualify. */
  lemma AccuracyBounds(cards: seq<Card>)
    requires TotalCorrect(cards) <= TotalAttempts(cards)
    ensures 0 <= Accuracy(cards) <= 100
  {
    if TotalAttempts(cards) > 0 {
      PercentBounds(TotalCorrect(cards), TotalAttempts(cards));
    }
  }

  lemma BalancedAccuracyBounds(cards: seq<Card>)
    requires forall i :: 0 <= i < |cards| ==> Balanced(cards[i])
    ensures 0 <= Accuracy(cards) <= 100
  {
    BalancedTotals(cards);
    AccuracyBounds(cards);
  }

  // ------------------------------------------------------------ hardest cards

  /** A card as the hardest-cards table holds it: `attempts` normalised,
      with an added `accuracy`. */
  datatype Ranked = Ranked(card: Card, accuracy: real)

  /** The `map` step: attempts default to 0, and the accuracy is correct
      over attempts, 0 without attempts. */
  function Annotate(c: Card): (r: Ranked)
    ensures r.card == c.(attempts := Some(OrZero(c.attempts)))
    ensures OrZero(c.attempts) > 0 ==> r.accuracy == OrZero(c.correct) as real / OrZero(c.attempts) as real
    ensures OrZero(c.attempts) == 0 ==> r.accuracy == 0.0
  {
    var attempts := OrZero(c.attempts);
    var correct := OrZero(c.correct);
    Ranked(c.(attempts := Some(attempts)), if attempts > 0 then correct as real / attempts as real else 0.0)
  }

  function Annotated(cards: seq<Card>): (r: seq<Ranked>)
    ensures |r| == |cards|
    ensures forall i :: 0 <= i < |cards| ==> r[i] == Annotate(cards[i])
  {
    seq(|cards|, i requires 0 <= i < |cards| => Annotate(cards[i]))
  }

  predicate Eligible(e: Ranked) {
    OrZero(e.card.attempts) >= 3
  }

  /** The `filter` step: cards attempted at least three times. */
  function EligibleCards(cards: seq<Card>): seq<Ranked> {
    Filter(Annotated(cards), (e: Ranked) => Eligible(e))
  }

  predicate Ascending(s: seq<Ranked>) {
    forall i, j :: 0 <= i < j < |s| ==> s[i].accuracy <= s[j].accuracy
  }

  /** The entries of `s` with accuracy `k`, in order. */
  function WithAccuracy(s: seq<Ranked>, k: real): seq<Ranked> {
    Filter(s, (e: Ranked) => e.accuracy == k)
  }

  /** Places `x` before the first entry whose accuracy is not lower. */
  function Insert(x: Ranked, s: seq<Ranked>): seq<Ranked>
    decreases |s|
  {
    if s == [] then [x]
    else if x.accuracy <= s[0].accuracy then [x] + s
    else [s[0]] + Insert(x, s[1..])
  }

  /** The `sort` step with comparator `a.accuracy - b.accuracy`. The
      sort is stable, so equal accuracies keep their relative order. */
  function SortByAccuracy(s: seq<Ranked>): seq<Ranked>
    decreases |s|
  {
    if s == [] then [] else Insert(s[0], SortByAccuracy(s[1..]))
  }

  /** Insertion adds `x` and loses nothing. */
  lemma {:induction false} InsertPermutes(x: Ranked, s: seq<Ranked>)
    ensures multiset(Insert(x, s)) == multiset{x} + multiset(s)
    decreases |s|
  {
    if s != [] && x.accuracy > s[0].accuracy {
      InsertPermutes(x, s[1..]);
      assert s == [s[0]] + s[1..];
    }
  }

  /** The first entry after an insertion is `x` or the old first entry. */
  lemma InsertHead(x: Ranked, s: seq<Ranked>)
    ensures Insert(x, s) != [] && (Insert(x, s)[0] == x || (s != [] && Insert(x, s)[0] == s[0]))
  {
  }

  lemma {:induction false} InsertAscending(x: Ranked, s: seq<Ranked>)
    requires Ascending(s)
    ensures Ascending(Insert(x, s))
    decreases |s|
  {
    if s != [] && x.accuracy > s[0].accuracy {
      var t := s[1..];
      assert Ascending(t);
      InsertAscending(x, t);
      InsertHead(x, t);
      var r := Insert(x, t);
      InsertPermutes(x, t);
      forall k | 0 <= k < |r| ensures s[0].accuracy <= r[k].accuracy {
        assert r[k] in multiset{x} + multiset(t);
        if r[k] != x {
          assert r[k] in t;
        }
      }
    }
  }


  lemma {:induction false} InsertKeepsOrder(x: Ranked, s: seq<Ranked>, k: real)
    ensures WithAccuracy(Insert(x, s), k) == (if x.accuracy == k then [x] else []) + WithAccuracy(s, k)
    decreases |s|
  {
    if s == [] {
      assert [x][1..] == [];
    } else if x.accuracy <= s[0].accuracy {
      assert ([x] + s)[1..] == s;
    } else {
      InsertKeepsOrder(x, s[1..], k);
      assert ([s[0]] + Insert(x, s[1..]))[1..] == Insert(x, s[1..]);
    }
  }

  /** The sort loses or duplicates nothing. */
  lemma {:induction false} SortPermutes(s: seq<Ranked>)
    ensures multiset(SortByAccuracy(s)) == multiset(s)
    decreases |s|
  {
    if s != [] {
      SortPermutes(s[1..]);
      InsertPermutes(s[0], SortByAccuracy(s[1..]));
      assert s == [s[0]] + s[1..];
    }
  }

  /** The sort orders by accuracy and loses or duplicates nothing. */
  lemma {:induction false} SortAscending(s: seq<Ranked>)
    ensures Ascending(SortByAccuracy(s))
    ensures multiset(SortByAccuracy(s)) == multiset(s)
    decreases |s|
  {
    SortPermutes(s);
    if s != [] {
      SortAscending(s[1..]);
      InsertAscending(s[0], SortByAccuracy(s[1..]));
    }
  }

  /** Stability: the entries of any one accuracy come out in input order. */
  lemma {:induction false} SortStable(s: seq<Ranked>, k: real)
    ensures WithAccuracy(SortByAccuracy(s), k) == WithAccuracy(s, k)
    decreases |s|
  {
    if s != [] {
      SortStable(s[1..], k);
      InsertKeepsOrder(s[0], SortByAccuracy(s[1..]), k);
    }
  }

  /** `hardestCards`: the first five of the sorted eligible cards. */
  function HardestCards(cards: seq<Card>): seq<Ranked> {
    var sorted := SortByAccuracy(EligibleCards(cards));
    if |sorted| <= 5 then sorted else sorted[..5]
  }

  /** Every entry is one of the eligible cards. */
  lemma HardestMember(cards: seq<Card>, i: nat)
    requires i < |HardestCards(cards)|
    ensures HardestCards(cards)[i] in EligibleCards(cards)
  {
    var eligible := EligibleCards(cards);
    var sorted := SortByAccuracy(eligible);
    SortPermutes(eligible);
    assert HardestCards(cards)[i] == sorted[i];
    assert sorted[i] in multiset(sorted);
  }

  /** At most five entries, no more than there are eligible cards, each
      attempted at least three times. */
  lemma HardestBounds(cards: seq<Card>)
    ensures |HardestCards(cards)| <= 5
    ensures |HardestCards(cards)| <= |EligibleCards(cards)|
    ensures |HardestCards(cards)| == if |EligibleCards(cards)| <= 5 then |EligibleCards(cards)| else 5
    ensures forall i :: 0 <= i < |HardestCards(cards)| ==> OrZero(HardestCards(cards)[i].card.attempts) >= 3
  {
    var eligible := EligibleCards(cards);
    var sorted := SortByAccuracy(eligible);
    SortPermutes(eligible);
    assert |sorted| == |multiset(sorted)| == |multiset(eligible)| == |eligible|;
    forall i | 0 <= i < |HardestCards(cards)| ensures Eligible(HardestCards(cards)[i]) {
      HardestMember(cards, i);
    }
  }

  /** An eligible entry is an input card, annotated. */
  lemma EligibleFromInput(cards: seq<Card>, e: Ranked)
    requires e in EligibleCards(cards)
    ensures exists j :: 0 <= j < |cards| && e == Annotate(cards[j])
  {
    var all := Annotated(cards);
    assert e in all;
    var j :| 0 <= j < |all| && all[j] == e;
    assert e == Annotate(cards[j]);
  }

  /** Each entry is an input card with its attempts normalised and its
      accuracy added; nothing else of the card changes. */
  lemma HardestFromInput(cards: seq<Card>)
    ensures forall i :: 0 <= i < |HardestCards(cards)| ==>
      exists j :: 0 <= j < |cards| && HardestCards(cards)[i] == Annotate(cards[j])
  {
    var hardest := HardestCards(cards);
    forall i | 0 <= i < |hardest|
      ensures exists j :: 0 <= j < |cards| && hardest[i] == Annotate(cards[j])
    {
      HardestMember(cards, i);
      EligibleFromInput(cards, hardest[i]);
    }
  }

  /** The entries are in ascending accuracy. */
  lemma HardestAscending(cards: seq<Card>)
    ensures Ascending(HardestCards(cards))
  {
    SortAscending(EligibleCards(cards));
  }

  /** Among entries of the same accuracy the input order is kept: they are
      the first ones of that accuracy among the eligible cards. */
  lemma HardestStable(cards: seq<Card>, k: real)
    ensures WithAccuracy(HardestCards(cards), k) <= WithAccuracy(EligibleCards(cards), k)
  {
    var sorted := SortByAccuracy(EligibleCards(cards));
    SortStable(EligibleCards(cards), k);
    if |sorted| > 5 {
      FilterPrefix(sorted, 5, (e: Ranked) => e.accuracy == k);
    }
  }

  /** A five-lowest selection: an eligible card left out has an accuracy at
      least that of every entry. */
  lemma HardestAreLowest(cards: seq<Card>)
    ensures forall j, i ::
      (0 <= j < |EligibleCards(cards)| && 0 <= i < |HardestCards(cards)| && EligibleCards(cards)[j] !in HardestCards(cards))
      ==> HardestCards(cards)[i].accuracy <= EligibleCards(cards)[j].accuracy
  {
    var eligible := EligibleCards(cards);
    var sorted := SortByAccuracy(eligible);
    var hardest := HardestCards(cards);
    SortAscending(eligible);
    forall j, i | 0 <= j < |eligible| && 0 <= i < |hardest| && eligible[j] !in hardest
      ensures hardest[i].accuracy <= eligible[j].accuracy
    {
      var e := eligible[j];
      assert e in multiset(sorted);
      var m :| 0 <= m < |sorted| && sorted[m] == e;
      assert m >= |hardest|;
    }
  }
}
