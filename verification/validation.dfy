/**
 * Phase C of the roster generator: shortfall flagging. A day with fewer
 * working marks than its weekday requires has every cell that is not a
 * working mark relabelled `"?"`; every other day is left alone.
 */
module Validation {
  import opened Sequences
  import opened WeekConfig
  import opened Schedule
  import opened Allocation

  /** Day `d` has fewer workers on than its weekday requires. */
  predicate ShortDay(g: Grid, plan: map<string, int>, start: int, d: int)
    requires HasColumn(g, d) && WeekdayKey(start, d) in plan
  {
    Count(Column(g, d), Work) < Required(plan, start, d)
  }

  /** The mark cell `(w, d)` carries once the phase has passed over day `d`. */
  function FlaggedCell(g: Grid, plan: map<string, int>, start: int, w: int, d: int): (c: Cell)
    requires 0 <= w < |g| && HasColumn(g, d) && WeekdayKey(start, d) in plan
    ensures c == Work <==> g[w][d] == Work
    ensures c != g[w][d] ==> c == Short && ShortDay(g, plan, start, d)
  {
    if g[w][d] != Work && ShortDay(g, plan, start, d) then Short else g[w][d]
  }

  /**
   * The grid after the phase. Day `d`'s count is taken when the loop
   * reaches it, but no earlier iteration touches column `d`, so it is
   * the count of the input grid.
   */
  function Validate(g: Grid, plan: map<string, int>, start: int, days: nat): (r: Grid)
    requires IsGrid(g, days) && PlanCovers(plan, start, days)
    ensures |r| == |g| && IsGrid(r, days)
    ensures forall w, d :: 0 <= w < |g| && 0 <= d < days ==>
              HasColumn(g, d) && r[w][d] == FlaggedCell(g, plan, start, w, d)
  {
    assert forall d :: 0 <= d < days ==> HasColumn(g, d);
    seq(|g|, w requires 0 <= w < |g| =>
      seq(days, d requires 0 <= d < days => FlaggedCell(g, plan, start, w, d)))
  }

  /**
   * The phase never adds or removes a working mark, so every day keeps its
   * number of workers on.
   */
  lemma ValidationKeepsWork(g: Grid, plan: map<string, int>, start: int, days: nat, d: int)
    requires IsGrid(g, days) && PlanCovers(plan, start, days)
    requires 0 <= d < days
    ensures var r := Validate(g, plan, start, days);
            && HasColumn(r, d) && HasColumn(g, d)
            && (forall w :: 0 <= w < |g| ==> (r[w][d] == Work <==> g[w][d] == Work))
            && Count(Column(r, d), Work) == Count(Column(g, d), Work)
  {
    var r := Validate(g, plan, start, days);
    assert HasColumn(r, d) && HasColumn(g, d);
    CountSameMarks(Column(r, d), Column(g, d), Work);
  }

  /**
   * What the phase leaves on day `d`: a day meeting its requirement is
   * unchanged; on a short day every cell that is not a working mark is
   * `"?"` and the working marks stay.
   */
  lemma ValidatedDay(g: Grid, plan: map<string, int>, start: int, days: nat, d: int)
    requires IsGrid(g, days) && PlanCovers(plan, start, days)
    requires 0 <= d < days
    ensures var r := Validate(g, plan, start, days);
            && HasColumn(r, d) && HasColumn(g, d)
            && (!ShortDay(g, plan, start, d) ==> Column(r, d) == Column(g, d))
            && (ShortDay(g, plan, start, d) ==>
                  forall w :: 0 <= w < |g| ==> r[w][d] == (if g[w][d] == Work then Work else Short))
  {
    var r := Validate(g, plan, start, days);
    assert HasColumn(r, d) && HasColumn(g, d);
  }

  /**
   * After the phase every day either has as many workers on as its weekday
   * requires or shows `"?"` in every cell that is not a working mark.
   */
  lemma EveryDayStaffedOrFlagged(g: Grid, plan: map<string, int>, start: int, days: nat, d: int)
    requires IsGrid(g, days) && PlanCovers(plan, start, days)
    requires 0 <= d < days
    ensures var r := Validate(g, plan, start, days);
            && HasColumn(r, d)
            && (Count(Column(r, d), Work) >= Required(plan, start, d)
                || forall w :: 0 <= w < |r| ==> r[w][d] == Work || r[w][d] == Short)
  {
    ValidationKeepsWork(g, plan, start, days, d);
    ValidatedDay(g, plan, start, days, d);
  }

  /**
   * A day that has its required workers on after the phase was never
   * flagged: when the frame had no `"?"` on that day, it still has none.
   */
  lemma StaffedDayUnflagged(g: Grid, plan: map<string, int>, start: int, days: nat, d: int)
    requires IsGrid(g, days) && PlanCovers(plan, start, days)
    requires 0 <= d < days
    requires forall w :: 0 <= w < |g| ==> g[w][d] != Short
    ensures var r := Validate(g, plan, start, days);
            && HasColumn(r, d)
            && (Count(Column(r, d), Work) >= Required(plan, start, d) ==> forall w :: 0 <= w < |r| ==> r[w][d] != Short)
  {
    ValidationKeepsWork(g, plan, start, days, d);
    ValidatedDay(g, plan, start, days, d);
  }

  /** Flagging a flagged grid again changes nothing. */
  lemma ValidationIdempotent(g: Grid, plan: map<string, int>, start: int, days: nat)
    requires IsGrid(g, days) && PlanCovers(plan, start, days)
    ensures var r := Validate(g, plan, start, days);
            Validate(r, plan, start, days) == r
  {
    var r := Validate(g, plan, start, days);
    var rr := Validate(r, plan, start, days);
    forall w, d | 0 <= w < |g| && 0 <= d < days
      ensures rr[w][d] == r[w][d]
    {
      ValidationKeepsWork(g, plan, start, days, d);
      assert ShortDay(r, plan, start, d) == ShortDay(g, plan, start, d);
    }
    GridExt(rr, r, days);
  }
}
