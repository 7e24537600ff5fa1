/**
 * `process_data`: builds the empty frame for the month (one row per named
 * worker, one column per day label), runs the three phases on it, and
 * appends the creator row. The month's length and the weekday of its first
 * day, and the outcomes of the shuffles, are inputs.
 */
module Process {
  import opened Sequences
  import opened WeekConfig
  import opened Calendar
  import opened Records
  import opened Schedule
  import opened Allocation
  import opened Balancing
  import opened Validation
  import opened Phases

  /** The finished frame: row labels, column labels, the workers' rows, and the `Data` row under them. */
  datatype Table = Table(index: seq<string>, columns: seq<string>, cells: Grid, creator: seq<string>)

  /** The row labels: the workers' names. */
  function WorkerNames(data: seq<Record>): seq<string>
  {
    NamesOf(Middle(data))
  }

  /** The shuffles of one run: one order of the workers per day, one order of the days per worker. */
  predicate Shuffles(perms: seq<seq<int>>, orders: seq<seq<int>>, workers: nat, days: nat)
  {
    && |perms| >= days && (forall d :: 0 <= d < days ==> IsPermutation(perms[d], workers))
    && |orders| >= workers && (forall w :: 0 <= w < workers ==> IsPermutation(orders[w], days))
  }

  /** The worker rows the three phases leave, from the blank frame. */
  function Roster(data: seq<Record>, plan: map<string, int>, days: nat, start: int,
                    perms: seq<seq<int>>, orders: seq<seq<int>>): (g: Grid)
    requires PlanCovers(plan, start, days) && |perms| >= days
    requires |ExtractDictDays(data)| >= |WorkerNames(data)| && |orders| >= |WorkerNames(data)|
    ensures |g| == |WorkerNames(data)| && IsGrid(g, days)
  {
    var names := WorkerNames(data);
    var staffed := AllocateDays(Blank(|names|, days), OffDaysOf(data), plan, start, perms, days);
    var balanced := BalanceAll(staffed, ExtractDictDays(data), orders);
    assert IsGrid(balanced, days);
    Validate(balanced, plan, start, days)
  }

  /**
   * The generator end to end. It fails with the first exception the
   * source raises: an off-day field that does not parse, a missing
   * weekly plan, a weekday without requirement (looked up day by day),
   * fewer days-off targets than workers, then a missing creator field or a
   * creator row that does not fit the columns. Otherwise the frame holds the
   * month's labels, the phases' result and the creator row, and every day
   * has its required workers on or is flagged `"?"` in all other cells.
   */
  method ProcessData(data: seq<Record>, daysInMonth: nat, start: int, perms: seq<seq<int>>, orders: seq<seq<int>>)
    returns (r: Result<Table, Error>)
    requires Shuffles(perms, orders, |WorkerNames(data)|, daysInMonth)
    ensures (exists i :: 0 <= i < |Middle(data)| && PersonalDays(Middle(data)[i]).Err?) ==>
              r.Err? && exists i :: && 0 <= i < |Middle(data)|
                                    && PersonalDays(Middle(data)[i]) == Err(r.error)
                                    && forall j :: 0 <= j < i ==> PersonalDays(Middle(data)[j]).Ok?
    ensures (forall i :: 0 <= i < |Middle(data)| ==> PersonalDays(Middle(data)[i]).Ok?) ==>
              var plan := ExtractWeeklyPlan(data);
              if plan.Err? then r == Err(plan.error)
              else if FirstUncovered(plan.value, start, daysInMonth).Some? then
                r == Err(MissingKey(WeekdayKey(start, FirstUncovered(plan.value, start, daysInMonth).value)))
              else if |ExtractDictDays(data)| < |WorkerNames(data)| then r == Err(IndexOutOfRange)
              else if CreatorRow(data, daysInMonth).Err? then r == Err(CreatorRow(data, daysInMonth).error)
              else r == Ok(Table(WorkerNames(data) + ["Data"], CalendarLabels(daysInMonth, start),
                                 Roster(data, plan.value, daysInMonth, start, perms, orders),
                                 CreatorRow(data, daysInMonth).value))
  {
    var labels := CalendarLabels(daysInMonth, start);
    var names := WorkerNames(data);
    var grid := new Cell[|names|, daysInMonth]((i, j) => Unset);
    GridExt(Contents(grid), Blank(|names|, daysInMonth), daysInMonth);
    var dictDays := ExtractDictDays(data);
    var offDays := ExtractOffDays(data);
    if offDays.Err? {
      return Err(offDays.error);
    }
    var plan := ExtractWeeklyPlan(data);
    if plan.Err? {
      return Err(plan.error);
    }
    var uncovered := FirstUncovered(plan.value, start, daysInMonth);
    if uncovered.Some? {
      return Err(MissingKey(WeekdayKey(start, uncovered.value)));
    }
    if |dictDays| < |names| {
      return Err(IndexOutOfRange);
    }
    LookColumn(grid, dictDays, offDays.value, start, plan.value, perms, orders);
    ValidateSchedule(grid, plan.value, start);
    var creator := CreatorRow(data, daysInMonth);
    if creator.Err? {
      return Err(creator.error);
    }
    return Ok(Table(names + ["Data"], labels, Contents(grid), creator.value));
  }

  /**
   * In the finished roster every day has the workers its weekday requires
   * on, or shows `"?"` in every cell that is not a working mark; and a day
   * that has its workers on shows no `"?"` at all.
   */
  lemma RosterStaffedOrFlagged(data: seq<Record>, plan: map<string, int>, days: nat, start: int,
                               perms: seq<seq<int>>, orders: seq<seq<int>>, d: int)
    requires PlanCovers(plan, start, days) && |perms| >= days
    requires |ExtractDictDays(data)| >= |WorkerNames(data)| && |orders| >= |WorkerNames(data)|
    requires 0 <= d < days
    ensures var g := Roster(data, plan, days, start, perms, orders);
            && HasColumn(g, d)
            && (|| Count(Column(g, d), Work) >= Required(plan, start, d)
                || forall w :: 0 <= w < |g| ==> g[w][d] == Work || g[w][d] == Short)
            && (Count(Column(g, d), Work) >= Required(plan, start, d) ==> forall w :: 0 <= w < |g| ==> g[w][d] != Short)
  {
    var names := WorkerNames(data);
    var blank := Blank(|names|, days);
    var staffed := AllocateDays(blank, OffDaysOf(data), plan, start, perms, days);
    AllocateKeepsNoShort(blank, OffDaysOf(data), plan, start, perms, days);
    var balanced := BalanceAll(staffed, ExtractDictDays(data), orders);
    assert IsGrid(balanced, days);
    assert forall w :: 0 <= w < |balanced| ==> balanced[w][d] != Short by {
      BalanceAllKeepsNoShort(staffed, ExtractDictDays(data), orders);
    }
    EveryDayStaffedOrFlagged(balanced, plan, start, days, d);
    StaffedDayUnflagged(balanced, plan, start, days, d);
    assert Roster(data, plan, days, start, perms, orders) == Validate(balanced, plan, start, days);
  }
}
