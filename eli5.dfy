/**
 * The "explain like I'm five" walkthrough: five steps, a Back and a Next
 * button that clamp at the ends, a row of dots that jump to a step and
 * show which steps are current, visited or still to come.
 */
module Eli5 {

  /** One step of the walkthrough; `visual` names the picture shown beside it. */
  datatype Step = Step(title: string, visual: string)

  const Steps: seq<Step> := [
    Step("Checking answers is easy", "puzzle-check"),
    Step("Finding answers is hard", "puzzle-solve"),
    Step("That's P vs NP", "question"),
    Step("Why it matters", "lock"),
    Step("Our argument", "lightbulb")
  ]

  /** The keys of the table of pictures. */
  const Visuals: set<string> := {"puzzle-check", "puzzle-solve", "question", "lock", "lightbulb"}

  /** Every step's picture is in the table, so looking it up never fails. */
  lemma VisualsCoverSteps()
    ensures forall i :: 0 <= i < |Steps| ==> Steps[i].visual in Visuals
  {
  }

  function Max(a: int, b: int): int { if a < b then b else a }

  function Min(a: int, b: int): int { if a < b then a else b }

  /** The Back button's update, `Math.max(0, s - 1)`; it keeps the step in range. */
  function Back(s: int): (r: int)
    ensures 0 <= s < |Steps| ==> 0 <= r < |Steps|
  {
    Max(0, s - 1)
  }

  /** The Next button's update, `Math.min(steps.length - 1, s + 1)`; it keeps the step in range. */
  function Next(s: int): (r: int)
    ensures 0 <= s < |Steps| ==> 0 <= r < |Steps|
  {
    Min(|Steps| - 1, s + 1)
  }

  /**
   * Each button is disabled exactly where pressing it would change nothing:
   * Back on the first step, Next on the last.
   */
  lemma DisabledExactlyAtFixedPoints(s: int)
    requires 0 <= s < |Steps|
    ensures Back(s) == s <==> s == 0
    ensures Next(s) == s <==> s == |Steps| - 1
  {
  }

  /** Away from the ends, Back and Next undo each other. */
  lemma BackNextRoundTrip(s: int)
    requires 0 <= s < |Steps|
    ensures 0 < s ==> Next(Back(s)) == s
    ensures s < |Steps| - 1 ==> Back(Next(s)) == s
  {
  }

  /** How a dot of the indicator row is drawn. */
  datatype Indicator = Current | Visited | Upcoming

  /** Dot `i` is current at the step, visited once passed, upcoming before it is reached. */
  function IndicatorOf(i: int, step: int): (r: Indicator)
    ensures r == Current <==> i == step
    ensures r == Visited <==> i < step
    ensures r == Upcoming <==> i > step
  {
    if i == step then Current else if i < step then Visited else Upcoming
  }

  /** The indicator row: one dot per step. */
  function Indicators(step: int): (r: seq<Indicator>)
    ensures |r| == |Steps|
    ensures forall i, j :: 0 <= i < j < |r| && r[j] == Visited ==> r[i] == Visited
    ensures forall i, j :: 0 <= i < j < |r| && r[i] == Upcoming ==> r[j] == Upcoming
    ensures forall i, j :: 0 <= i < j < |r| ==> !(r[i] == Current && r[j] == Current)
  {
    seq(|Steps|, i requires 0 <= i < |Steps| => IndicatorOf(i, step))
  }

  function Repeat(x: Indicator, n: nat): (r: seq<Indicator>)
    ensures |r| == n && forall i :: 0 <= i < n ==> r[i] == x
  {
    if n == 0 then [] else [x] + Repeat(x, n - 1)
  }

  /**
   * The row reads: a dot for each visited step, exactly one current dot at
   * the step, then a dot for each step still to come.
   */
  lemma IndicatorRowShape(step: int)
    requires 0 <= step < |Steps|
    ensures Indicators(step) == Repeat(Visited, step) + [Current] + Repeat(Upcoming, |Steps| - step - 1)
  {
    var row := Repeat(Visited, step) + [Current] + Repeat(Upcoming, |Steps| - step - 1);
    forall i | 0 <= i < |Steps|
      ensures Indicators(step)[i] == row[i]
    {
      if i < step {
        assert row[i] == Repeat(Visited, step)[i];
      } else if i > step {
        assert row[i] == Repeat(Upcoming, |Steps| - step - 1)[i - step - 1];
      }
    }
  }

  /** The walkthrough's state: the index of the step shown. */
  class Stepper {
    var step: int

    ghost predicate Valid()
      reads this
    {
      0 <= step < |Steps|
    }

    constructor ()
      ensures Valid() && step == 0
    {
      step := 0;
    }

    method BackClicked()
      requires Valid()
      modifies this
      ensures Valid() && step == Back(old(step))
    {
      step := Back(step);
    }

    method NextClicked()
      requires Valid()
      modifies this
      ensures Valid() && step == Next(old(step))
    {
      step := Next(step);
    }

    /** A click on dot `i` shows step `i`. */
    method DotClicked(i: int)
      requires Valid() && 0 <= i < |Steps|
      modifies this
      ensures Valid() && step == i
    {
      step := i;
    }

    /** The picture of the current step, found in the table of pictures. */
    function CurrentVisual(): (v: string)
      reads this
      requires Valid()
      ensures v in Visuals
    {
      Steps[step].visual
    }
  }
}
