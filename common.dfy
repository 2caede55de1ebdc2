/** Shared records and outcome types of the flashcard front end. */
module Common {

  datatype Option<+T> = None | Some(value: T) {
    function GetOr(default: T): T {
      match this
      case Some(v) => v
      case None => default
    }
  }

  datatype Result<+R, +E> = Ok(value: R) | Err(error: E)

  /** What the hosted query client answers to a select or an insert:
      either `data` (possibly null) or an error message. */
  datatype Reply<+T> = Data(data: Option<T>) | Failed(message: string)

  /** What the hosted query client answers to a delete or an update. */
  datatype Outcome = Done | Refused(message: string)

  /** A row of the `cards` table as the front end sees it. Nullable
      columns are `Option`s; the counters are non-negative. */
  datatype Card = Card(
    id: string,
    deckId: string,
    front: Option<string>,
    back: Option<string>,
    starred: Option<bool>,
    attempts: Option<nat>,
    correct: Option<nat>,
    incorrect: Option<nat>)

  /** `x || 0` on a nullable counter: a missing value counts as 0. */
  function OrZero(x: Option<nat>): (r: nat)
    ensures x.None? ==> r == 0
    ensures x.Some? ==> r == x.value
  {
    x.GetOr(0)
  }

  /** The per-card invariant the counters are meant to keep. */
  predicate Balanced(c: Card) {
    OrZero(c.attempts) == OrZero(c.correct) + OrZero(c.incorrect)
  }

  /** JavaScript's `Math.round` on an exact number: halves round up. */
  function Round(x: real): (r: int)
    ensures r as real <= x + 0.5 < r as real + 1.0
  {
    (x + 0.5).Floor
  }

  /** `Math.round((part / whole) * 100)`, the percentage both the review
      score and the deck accuracy show. */
  function Percent(part: nat, whole: nat): int
    requires whole > 0
  {
    Round(part as real / whole as real * 100.0)
  }

  /** The percentage in integer arithmetic: the quotient of
      `200 * part + whole` by `2 * whole`. */
  lemma PercentExact(part: nat, whole: nat)
    requires whole > 0
    ensures Percent(part, whole) == (200 * part + whole) / (2 * whole)
  {
    var w := 2 * whole;
    var q := (200 * part + whole) / w;
    var m := (200 * part + whole) % w;
    assert 200 * part + whole == q * w + m && 0 <= m < w;
    var x := part as real / whole as real * 100.0;
    assert part as real / whole as real * whole as real == part as real;
    assert (x + 0.5) * w as real == (200 * part + whole) as real;
    assert (x + 0.5 - q as real) * w as real == m as real;
    ScaledUnit(x + 0.5 - q as real, w as real, m as real);
    var r := Percent(part, whole);
    assert r as real <= x + 0.5 < r as real + 1.0;
  }

  lemma ScaledUnit(y: real, w: real, m: real)
    requires 0.0 < w && 0.0 <= m < w && y * w == m
    ensures 0.0 <= y < 1.0
  {
    assert y < 0.0 ==> y * w < 0.0;
    assert y >= 1.0 ==> (y - 1.0) * w >= 0.0;
  }

  /** A part of a whole is shown as a percentage between 0 and 100. */
  lemma PercentBounds(part: nat, whole: nat)
    requires 0 < whole && part <= whole
    ensures 0 <= Percent(part, whole) <= 100
    ensures part == 0 ==> Percent(part, whole) == 0
    ensures part == whole ==> Percent(part, whole) == 100
  {
    var x := part as real / whole as real;
    assert 0.0 <= x <= 1.0;
    assert part == whole ==> x == 1.0;
  }
}
