/** The Trend Bites carousel: one index into the list of trending dishes,
    moved forward and back with wrap-around. */
module TrendBites {

  /** The trending dishes, by name, in display order. */
  const TrendingDishes: seq<string> :=
    ["Korean Corn Dogs", "Birria Tacos", "Dalgona Coffee Dessert", "Smash Burgers", "Ube Everything"]

  const TrendCount: nat := |TrendingDishes|

  /** `nextTrend`: one step forward, from the last dish back to the first. */
  function NextTrend(i: nat): (j: nat)
    requires i < TrendCount
    ensures j < TrendCount
    ensures i + 1 < TrendCount ==> j == i + 1
    ensures i + 1 == TrendCount ==> j == 0
  {
    (i + 1) % TrendCount
  }

  /** `prevTrend`: one step back, from the first dish to the last. */
  function PrevTrend(i: nat): (j: nat)
    requires i < TrendCount
    ensures j < TrendCount
    ensures i > 0 ==> j == i - 1
    ensures i == 0 ==> j == TrendCount - 1
  {
    (i - 1 + TrendCount) % TrendCount
  }

  /** Going forward then back, or back then forward, returns to the same
      dish. */
  lemma PrevUndoesNext(i: nat)
    requires i < TrendCount
    ensures PrevTrend(NextTrend(i)) == i
    ensures NextTrend(PrevTrend(i)) == i
  {
  }

  datatype Move = Next | Prev

  function Step(i: nat, m: Move): (j: nat)
    requires i < TrendCount
    ensures j < TrendCount
  {
    match m
    case Next => NextTrend(i)
    case Prev => PrevTrend(i)
  }

  /** The index after a sequence of button presses; it never leaves the
      list. */
  function Replay(i: nat, moves: seq<Move>): (j: nat)
    requires i < TrendCount
    ensures j < TrendCount
    decreases |moves|
  {
    if |moves| == 0 then i else Replay(Step(i, moves[0]), moves[1..])
  }

  /** Presses forward minus presses back. */
  function Net(moves: seq<Move>): int {
    if |moves| == 0 then 0
    else (if moves[0] == Next then 1 else -1) + Net(moves[1..])
  }

  lemma ModShift(a: int, b: int)
    ensures ((a % TrendCount) + b) % TrendCount == (a + b) % TrendCount
  {
    var q := a / TrendCount;
    assert a == TrendCount * q + a % TrendCount;
    assert (a % TrendCount) + b == (a + b) - TrendCount * q;
  }

  /** The shown dish depends only on the net number of presses: it is the
      start index plus that net count, modulo the number of dishes. */
  lemma {:induction false} ReplayNet(i: nat, moves: seq<Move>)
    requires i < TrendCount
    ensures Replay(i, moves) == (i + Net(moves)) % TrendCount
    decreases |moves|
  {
    if |moves| == 0 {
    } else {
      var d := if moves[0] == Next then 1 else -1;
      assert Step(i, moves[0]) == (i + d) % TrendCount;
      ReplayNet(Step(i, moves[0]), moves[1..]);
      ModShift(i + d, Net(moves[1..]));
    }
  }

  /** `count` presses of "Next Trend" (or of the ten-second timer). */
  function Advance(i: nat, count: nat): (j: nat)
    requires i < TrendCount
    ensures j < TrendCount
  {
    if count == 0 then i else NextTrend(Advance(i, count - 1))
  }

  lemma {:induction false} AdvanceIsModular(i: nat, count: nat)
    requires i < TrendCount
    ensures Advance(i, count) == (i + count) % TrendCount
  {
    if count > 0 {
      AdvanceIsModular(i, count - 1);
      ModShift(i + count - 1, 1);
    }
  }

  /** After one full round of "Next Trend" the carousel is back where it
      started. */
  lemma FullCycle(i: nat)
    requires i < TrendCount
    ensures Advance(i, TrendCount) == i
  {
    AdvanceIsModular(i, TrendCount);
  }

  /** The counter `currentTrend + 1` of `n` shown under the card. */
  function CounterLabel(i: nat): (shown: nat)
    requires i < TrendCount
    ensures 1 <= shown <= TrendCount
  {
    i + 1
  }

  /** The component's state: the index of the dish on screen. */
  class TrendCarousel {
    var currentTrend: nat

    predicate Valid()
      reads this
    {
      currentTrend < TrendCount
    }

    constructor()
      ensures Valid() && currentTrend == 0
    {
      currentTrend := 0;
    }

    /** The dish on screen. */
    function Dish(): (name: string)
      reads this
      requires Valid()
      ensures name in TrendingDishes
    {
      TrendingDishes[currentTrend]
    }

    method Next()
      requires Valid()
      modifies this
      ensures Valid() && currentTrend == NextTrend(old(currentTrend))
    {
      currentTrend := (currentTrend + 1) % TrendCount;
    }

    method Prev()
      requires Valid()
      modifies this
      ensures Valid() && currentTrend == PrevTrend(old(currentTrend))
    {
      currentTrend := (currentTrend - 1 + TrendCount) % TrendCount;
    }
  }
}
