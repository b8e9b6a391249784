/**
 * Target placement: `GetRandomLocation` draws a point inside the game panel,
 * shrunk so that the picture stays visible and clear of the labels;
 * `GetUniqueRandomLocation` retries until the point is not among the last
 * ten, with an escape after 100 attempts. The random source is an input:
 * each attempt consumes one `Draw`.
 */
module LocationPicker {

  datatype Point = Point(x: int, y: int)

  /** The raw results of the two `random.Next` calls of one attempt. */
  datatype Draw = Draw(x: nat, y: nat)

  /** Game panel (the 800x600 client area) and insect picture (50x50). */
  const PanelWidth := 800
  const PanelHeight := 600
  const PictureWidth := 50
  const PictureHeight := 50
  /** Smallest coordinates handed out, and the margin kept on the far sides. */
  const MinX := 20
  const MinY := 70
  const Margin := 20
  /** Exclusive upper bounds: 730 and 530. */
  const MaxX := PanelWidth - PictureWidth - Margin
  const MaxY := PanelHeight - PictureHeight - Margin
  /** What `GetRandomLocation` returns while the picture or panel does not exist yet. */
  const FallbackLocation := Point(MinX, MinY)

  const MaxAttempts := 100
  const HistoryCapacity := 10

  predicate InPlayArea(p: Point)
  {
    MinX <= p.x < MaxX && MinY <= p.y < MaxY
  }

  /** `random.Next(minValue, maxValue)` for a draw: a value in [minValue, maxValue). */
  function RandomNext(minValue: int, maxValue: int, draw: nat): (r: int)
    requires minValue < maxValue
    ensures minValue <= r < maxValue
  {
    minValue + draw % (maxValue - minValue)
  }

  /** `GetRandomLocation`; `layoutCreated` says whether the picture and the panel exist. */
  function GetRandomLocation(layoutCreated: bool, draw: Draw): (p: Point)
    ensures InPlayArea(p)
    ensures !layoutCreated ==> p == FallbackLocation
  {
    if !layoutCreated then FallbackLocation
    else Point(RandomNext(MinX, MaxX, draw.x), RandomNext(MinY, MaxY, draw.y))
  }

  /** Every point of the play area is the outcome of some draw. */
  lemma EveryPointReachable(p: Point)
    requires InPlayArea(p)
    ensures GetRandomLocation(true, Draw(p.x - MinX, p.y - MinY)) == p
  {
  }

  /** The candidate of attempt number `attempt` (counted from 0). */
  function Candidate(draws: seq<Draw>, attempt: nat): Point
    requires attempt < |draws|
  {
    GetRandomLocation(true, draws[attempt])
  }

  predicate Distinct(history: seq<Point>)
  {
    forall i, j | 0 <= i < j < |history| :: history[i] != history[j]
  }

  /** `previousLocations.Add(p)` followed by the eviction of the oldest entry past capacity. */
  function Remember(history: seq<Point>, p: Point): seq<Point>
  {
    var added := history + [p];
    if |added| > HistoryCapacity then added[1..] else added
  }

  /** The history is a FIFO of capacity 10: the newest point is last, the oldest is dropped first. */
  lemma RememberIsFifo(history: seq<Point>, p: Point)
    requires |history| <= HistoryCapacity
    ensures |Remember(history, p)| <= HistoryCapacity
    ensures |history| < HistoryCapacity ==> Remember(history, p) == history + [p]
    ensures |history| == HistoryCapacity ==> Remember(history, p) == history[1..] + [p]
  {
  }

  /** Where a call of `GetUniqueRandomLocation` ends: the point returned and the new history. */
  datatype Pick = Pick(location: Point, history: seq<Point>)

  /**
   * The outcome of `GetUniqueRandomLocation` from attempt `attempt` on: the
   * 100th attempt clears the history and returns its candidate unrecorded;
   * before that, the first candidate absent from the history is recorded
   * and returned.
   */
  function PickFrom(history: seq<Point>, draws: seq<Draw>, attempt: nat): Pick
    requires attempt < MaxAttempts <= |draws|
    decreases MaxAttempts - attempt
  {
    var candidate := Candidate(draws, attempt);
    if attempt + 1 >= MaxAttempts then Pick(candidate, [])
    else if candidate in history then PickFrom(history, draws, attempt + 1)
    else Pick(candidate, Remember(history, candidate))
  }

  /** Some attempt before the last one, from `attempt` on, yields a point not in the history. */
  predicate FreshCandidateFrom(history: seq<Point>, draws: seq<Draw>, attempt: nat)
    requires MaxAttempts <= |draws|
  {
    exists j | attempt <= j < MaxAttempts - 1 :: Candidate(draws, j) !in history
  }

  /**
   * Normal path: when one of the first 99 candidates is new, the point
   * returned was absent from the history and is the last entry afterwards,
   * and it is the first such candidate.
   */
  lemma {:induction false} PickFresh(history: seq<Point>, draws: seq<Draw>, attempt: nat)
    requires attempt < MaxAttempts <= |draws|
    requires FreshCandidateFrom(history, draws, attempt)
    ensures var p := PickFrom(history, draws, attempt);
      && p.location !in history
      && p.history == Remember(history, p.location)
      && exists j | attempt <= j < MaxAttempts - 1 ::
           p.location == Candidate(draws, j) &&
           forall i | attempt <= i < j :: Candidate(draws, i) in history
    decreases MaxAttempts - attempt
  {
    var candidate := Candidate(draws, attempt);
    if candidate in history {
      var j :| attempt <= j < MaxAttempts - 1 && Candidate(draws, j) !in history;
      assert j != attempt;
      assert FreshCandidateFrom(history, draws, attempt + 1);
      PickFresh(history, draws, attempt + 1);
      var p := PickFrom(history, draws, attempt + 1);
      var k :| attempt + 1 <= k < MaxAttempts - 1 && p.location == Candidate(draws, k) &&
           forall i | attempt + 1 <= i < k :: Candidate(draws, i) in history;
      assert forall i | attempt <= i < k :: Candidate(draws, i) in history;
    } else {
      var j :| attempt <= j < MaxAttempts - 1 && Candidate(draws, j) !in history;
      assert attempt < MaxAttempts - 1;
    }
  }

  /**
   * Escape path: when the first 99 candidates are all in the history, the
   * history is cleared and the 100th candidate is returned unrecorded.
   */
  lemma {:induction false} PickEscape(history: seq<Point>, draws: seq<Draw>, attempt: nat)
    requires attempt < MaxAttempts <= |draws|
    requires !FreshCandidateFrom(history, draws, attempt)
    ensures PickFrom(history, draws, attempt) == Pick(Candidate(draws, MaxAttempts - 1), [])
    decreases MaxAttempts - attempt
  {
    if attempt + 1 < MaxAttempts {
      assert Candidate(draws, attempt) in history;
      PickEscape(history, draws, attempt + 1);
    }
  }

  /** The history stays within capacity, duplicate-free and inside the play area. */
  predicate GoodHistory(history: seq<Point>)
  {
    && |history| <= HistoryCapacity
    && Distinct(history)
    && forall p | p in history :: InPlayArea(p)
  }

  lemma {:induction false} PickKeepsHistoryGood(history: seq<Point>, draws: seq<Draw>, attempt: nat)
    requires attempt < MaxAttempts <= |draws|
    requires GoodHistory(history)
    ensures GoodHistory(PickFrom(history, draws, attempt).history)
    ensures InPlayArea(PickFrom(history, draws, attempt).location)
    decreases MaxAttempts - attempt
  {
    var candidate := Candidate(draws, attempt);
    if attempt + 1 >= MaxAttempts {
    } else if candidate in history {
      PickKeepsHistoryGood(history, draws, attempt + 1);
    } else {
      var added := history + [candidate];
      assert Distinct(added);
      var r := Remember(history, candidate);
      assert r == added || r == added[1..];
      assert forall i, j | 0 <= i < j < |r| :: r[i] != r[j] by {
        if r == added[1..] {
          forall i, j | 0 <= i < j < |r| ensures r[i] != r[j] {
            assert r[i] == added[i + 1] && r[j] == added[j + 1];
          }
        }
      }
      assert forall p | p in r :: p in added;
    }
  }
}
