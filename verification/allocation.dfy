/**
 * Phase A of the roster generator, the daily greedy allocation, as pure
 * functions on grid values. Day by day it looks up the weekday's staffing
 * requirement, gives every worker who asked for the day a day off, gives a
 * day off to every worker who worked all of the five previous days, and
 * staffs the day with the first `required` remaining workers of that day's
 * shuffled order.
 *
 * The shuffle of the worker indices is an input: `perm` (one per day) is
 * the order `random.shuffle` left the list `[0, ..., W-1]` in.
 */
module Allocation {
  import opened Sequences
  import opened WeekConfig
  import opened Schedule

  /** The plan has a requirement for the weekday of every day before `n`. */
  predicate PlanCovers(plan: map<string, int>, start: int, n: int)
  {
    forall d :: 0 <= d < n ==> WeekdayKey(start, d) in plan
  }

  /**
   * The first day before `n` whose weekday the plan has no requirement for:
   * the day whose lookup raises `KeyError` in the day loop.
   */
  function FirstUncovered(plan: map<string, int>, start: int, n: nat): (r: Option<nat>)
    ensures r.None? <==> PlanCovers(plan, start, n)
    ensures r.Some? ==> r.value < n && WeekdayKey(start, r.value) !in plan && PlanCovers(plan, start, r.value)
  {
    if n == 0 then None
    else match FirstUncovered(plan, start, n - 1)
      case Some(d) => Some(d)
      case None => if WeekdayKey(start, n - 1) in plan then None else Some(n - 1)
  }

  /** `weekly_plan[WEEKDAYS[(day + start_weekday) % 7]]`: the staff day `d` needs. */
  function Required(plan: map<string, int>, start: int, d: int): int
    requires WeekdayKey(start, d) in plan
  {
    plan[WeekdayKey(start, d)]
  }

  /** Worker `w` listed day `d + 1` (days are numbered from 1) among its unavailable days. */
  predicate OffRequested(offDays: seq<seq<int>>, w: int, d: int)
  {
    0 <= w < |offDays| && d + 1 in offDays[w]
  }

  /** The cells the cap looks at for day `d`: days `max(0, d - 5)` to `d - 1`, at most five. */
  function Window(row: seq<Cell>, d: int): (s: seq<Cell>)
    requires 0 <= d <= |row|
    ensures |s| == Min(d, 5)
  {
    row[Max(0, d - 5)..d]
  }

  /** The worker worked all five days before `d` and must rest on day `d`. */
  predicate Capped(row: seq<Cell>, d: int)
    requires 0 <= d <= |row|
  {
    Count(Window(row, d), Work) >= 5
  }

  /**
   * A capped worker worked each of the five days before `d`; the window of
   * days 0 to 4 is shorter than five, so nobody is capped on those days.
   */
  lemma CappedAfterFiveWorked(row: seq<Cell>, d: int)
    requires 0 <= d <= |row| && Capped(row, d)
    ensures d >= 5 && forall k :: d - 5 <= k < d ==> row[k] == Work
  {
    var s := Window(row, d);
    CountAllEqual(s, Work);
    assert forall k :: d - 5 <= k < d ==> row[k] == s[k - (d - 5)];
  }

  /** Conversely, five worked days right before `d` make the worker rest on `d`. */
  lemma FiveWorkedCapped(row: seq<Cell>, d: int)
    requires 5 <= d <= |row| && forall k :: d - 5 <= k < d ==> row[k] == Work
    ensures Capped(row, d)
  {
    var s := Window(row, d);
    assert forall i :: 0 <= i < |s| ==> s[i] == row[d - 5 + i];
    CountAllSame(s, Work);
  }

  /** Worker `w` stays in day `d`'s pool: no explicit day off and not capped. */
  predicate Eligible(g: Grid, offDays: seq<seq<int>>, d: int, w: int)
  {
    0 <= w < |g| && 0 <= d <= |g[w]| && !OffRequested(offDays, w, d) && !Capped(g[w], d)
  }

  /** The set of workers eligible on day `d`. */
  function EligibleSet(g: Grid, offDays: seq<seq<int>>, d: int): set<int>
  {
    set w | 0 <= w < |g| && Eligible(g, offDays, d, w)
  }

  /** The `workers` list once off days and capped workers are removed, in shuffled order. */
  function Pool(g: Grid, offDays: seq<seq<int>>, d: int, perm: seq<int>): (pool: seq<int>)
    ensures forall w :: w in pool <==> w in perm && Eligible(g, offDays, d, w)
  {
    Filter(perm, w => Eligible(g, offDays, d, w))
  }

  /** `workers[:required_workers]`: the workers put on day `d`. */
  function Staffed(g: Grid, offDays: seq<seq<int>>, d: int, req: int, perm: seq<int>): (s: seq<int>)
    requires req > 0
    ensures |s| == Min(req, |Pool(g, offDays, d, perm)|)
    ensures forall w :: w in s ==> w in Pool(g, offDays, d, perm)
  {
    var pool := Pool(g, offDays, d, perm);
    pool[..Min(req, |pool|)]
  }

  /**
   * The mark worker `w` gets on day `d`: off when it asked for the day or is
   * capped; otherwise, on a day that needs staff, working exactly when it is
   * among the first `req` of the pool; on a day that needs nobody the cell
   * is never written.
   */
  function DayCell(g: Grid, offDays: seq<seq<int>>, d: int, req: int, perm: seq<int>, w: int): (c: Cell)
    requires 0 <= w < |g| && HasColumn(g, d)
    ensures OffRequested(offDays, w, d) ==> c == Off
    ensures c == Work ==> Eligible(g, offDays, d, w)
    ensures req > 0 ==> (c == Work || c == Off)
    ensures req <= 0 ==> c == (if Eligible(g, offDays, d, w) then g[w][d] else Off)
  {
    if !Eligible(g, offDays, d, w) then Off
    else if req > 0 then (if w in Staffed(g, offDays, d, req, perm) then Work else Off)
    else g[w][d]
  }

  /** One iteration of the day loop: column `d` rewritten, every other cell kept. */
  function AllocateDay(g: Grid, offDays: seq<seq<int>>, d: int, req: int, perm: seq<int>): (r: Grid)
    requires HasColumn(g, d)
    ensures |r| == |g|
    ensures forall w :: 0 <= w < |g| ==> r[w] == g[w][d := DayCell(g, offDays, d, req, perm, w)]
  {
    seq(|g|, w requires 0 <= w < |g| => g[w][d := DayCell(g, offDays, d, req, perm, w)])
  }

  /** The grid after the first `n` days of the loop at the start of `look_column`. */
  function AllocateDays(g: Grid, offDays: seq<seq<int>>, plan: map<string, int>, start: int,
                        perms: seq<seq<int>>, n: nat): (r: Grid)
    requires forall w :: 0 <= w < |g| ==> n <= |g[w]|
    requires PlanCovers(plan, start, n) && n <= |perms|
    ensures |r| == |g| && forall w :: 0 <= w < |g| ==> |r[w]| == |g[w]|
  {
    if n == 0 then g
    else
      var prev := AllocateDays(g, offDays, plan, start, perms, n - 1);
      AllocateDay(prev, offDays, n - 1, Required(plan, start, n - 1), perms[n - 1])
  }

  /** A sequence made only of `x` counts `x` at every position. */
  lemma {:induction false} CountAllSame<T>(s: seq<T>, x: T)
    requires forall k :: 0 <= k < |s| ==> s[k] == x
    ensures Count(s, x) == |s|
  {
    if s != [] {
      CountAllSame(s[..|s| - 1], x);
    }
  }

  lemma {:induction false} CountAllEqual<T>(s: seq<T>, x: T)
    requires Count(s, x) >= |s|
    ensures forall k :: 0 <= k < |s| ==> s[k] == x
  {
    if s != [] {
      var t := s[..|s| - 1];
      CountAllEqual(t, x);
      forall k | 0 <= k < |t|
        ensures s[k] == x
      {
        assert s[k] == t[k];
      }
    }
  }

  /**
   * Day `j` of the allocated grid is written once, by iteration `j`, and
   * never again: columns not yet reached are those of the input.
   */
  lemma {:induction false} AllocateDaysFrame(g: Grid, offDays: seq<seq<int>>, plan: map<string, int>,
                                             start: int, perms: seq<seq<int>>, n: nat, w: int, j: int)
    requires forall v :: 0 <= v < |g| ==> n <= |g[v]|
    requires PlanCovers(plan, start, n) && n <= |perms|
    requires 0 <= w < |g| && 0 <= j < |g[w]|
    ensures j >= n ==> AllocateDays(g, offDays, plan, start, perms, n)[w][j] == g[w][j]
    ensures j < n ==> AllocateDays(g, offDays, plan, start, perms, n)[w][j]
                      == AllocateDays(g, offDays, plan, start, perms, j + 1)[w][j]
  {
    if n > 0 && j != n - 1 {
      AllocateDaysFrame(g, offDays, plan, start, perms, n - 1, w, j);
      var prev := AllocateDays(g, offDays, plan, start, perms, n - 1);
      var c := DayCell(prev, offDays, n - 1, Required(plan, start, n - 1), perms[n - 1], w);
      assert AllocateDays(g, offDays, plan, start, perms, n)[w] == prev[w][n - 1 := c];
    }
  }

  /**
   * The mark of worker `w` on day `d` in the finished allocation is the
   * one iteration `d` gave it, computed on the grid left by the days before.
   */
  lemma AllocatedCell(g: Grid, offDays: seq<seq<int>>, plan: map<string, int>,
                      start: int, perms: seq<seq<int>>, n: nat, w: int, d: int)
    requires forall v :: 0 <= v < |g| ==> n <= |g[v]|
    requires PlanCovers(plan, start, n) && n <= |perms|
    requires 0 <= w < |g| && 0 <= d < n
    ensures var before := AllocateDays(g, offDays, plan, start, perms, d);
            && HasColumn(before, d)
            && AllocateDays(g, offDays, plan, start, perms, n)[w][d]
               == DayCell(before, offDays, d, Required(plan, start, d), perms[d], w)
  {
    AllocateDaysFrame(g, offDays, plan, start, perms, n, w, d);
  }

  /**
   * A worker is off on every day it asked for, and it is not in that
   * day's pool.
   */
  lemma OffDaysHonoured(g: Grid, offDays: seq<seq<int>>, plan: map<string, int>,
                        start: int, perms: seq<seq<int>>, n: nat, w: int, d: int)
    requires forall v :: 0 <= v < |g| ==> n <= |g[v]|
    requires PlanCovers(plan, start, n) && n <= |perms|
    requires 0 <= w < |g| && 0 <= d < n
    requires OffRequested(offDays, w, d)
    ensures AllocateDays(g, offDays, plan, start, perms, n)[w][d] == Off
    ensures w !in Pool(AllocateDays(g, offDays, plan, start, perms, d), offDays, d, perms[d])
  {
    AllocatedCell(g, offDays, plan, start, perms, n, w, d);
  }

  /** No worker is on for six consecutive days of the allocation. */
  lemma NoSixConsecutiveWork(g: Grid, offDays: seq<seq<int>>, plan: map<string, int>,
                             start: int, perms: seq<seq<int>>, n: nat, w: int, d: nat)
    requires forall v :: 0 <= v < |g| ==> n <= |g[v]|
    requires PlanCovers(plan, start, n) && n <= |perms|
    requires 0 <= w < |g| && d + 6 <= n
    ensures Count(AllocateDays(g, offDays, plan, start, perms, n)[w][d..d + 6], Work) <= 5
    ensures exists k :: d <= k < d + 6 && AllocateDays(g, offDays, plan, start, perms, n)[w][k] != Work
  {
    var row := AllocateDays(g, offDays, plan, start, perms, n)[w];
    var before := AllocateDays(g, offDays, plan, start, perms, d + 5);
    forall k | d <= k < d + 5
      ensures row[k] == before[w][k]
    {
      AllocateDaysFrame(g, offDays, plan, start, perms, n, w, k);
      AllocateDaysFrame(g, offDays, plan, start, perms, d + 5, w, k);
    }
    AllocatedCell(g, offDays, plan, start, perms, n, w, d + 5);
    RestAfterFiveDays(row, before[w], d);
  }

  /**
   * A day is worked only when the five days before it were not all worked,
   * so a six-day stretch ending on it holds at most five working days.
   */
  lemma RestAfterFiveDays(row: seq<Cell>, prev: seq<Cell>, d: nat)
    requires d + 6 <= |row| && d + 5 <= |prev|
    requires forall k :: d <= k < d + 5 ==> row[k] == prev[k]
    requires row[d + 5] == Work ==> !Capped(prev, d + 5)
    ensures Count(row[d..d + 6], Work) <= 5
    ensures exists k :: d <= k < d + 6 && row[k] != Work
  {
    var six := row[d..d + 6];
    assert six[..5] == row[d..d + 5] == Window(prev, d + 5);
    assert Count(six, Work) == Count(six[..5], Work) + (if six[5] == Work then 1 else 0);
    CountBelowLength(six, Work);
    var k :| 0 <= k < 6 && six[k] != Work;
    assert row[d + k] != Work;
  }
  /** Phase A writes only working marks and days off, so it never puts a `"?"` in the frame. */
  lemma {:induction false} AllocateKeepsNoShort(g: Grid, offDays: seq<seq<int>>, plan: map<string, int>,
                                                start: int, perms: seq<seq<int>>, n: nat)
    requires forall v :: 0 <= v < |g| ==> n <= |g[v]|
    requires PlanCovers(plan, start, n) && n <= |perms|
    requires NoShort(g)
    ensures NoShort(AllocateDays(g, offDays, plan, start, perms, n))
  {
    if n > 0 {
      AllocateKeepsNoShort(g, offDays, plan, start, perms, n - 1);
      var prev := AllocateDays(g, offDays, plan, start, perms, n - 1);
      var r := AllocateDays(g, offDays, plan, start, perms, n);
      var req := Required(plan, start, n - 1);
      assert r == AllocateDay(prev, offDays, n - 1, req, perms[n - 1]);
      forall w, j | 0 <= w < |r| && 0 <= j < |r[w]|
        ensures r[w][j] != Short
      {
        if j == n - 1 {
          assert r[w][j] == DayCell(prev, offDays, n - 1, req, perms[n - 1], w);
        } else {
          assert r[w][j] == prev[w][j];
        }
      }
    }
  }

  /**
   * On a day that needs staff, the workers marked on are exactly the
   * staffed prefix of the pool, so there are `min(required, |pool|)` of them.
   */
  lemma DayStaffing(g: Grid, offDays: seq<seq<int>>, d: int, req: int, perm: seq<int>)
    requires HasColumn(g, d) && req > 0
    requires IsPermutation(perm, |g|)
    ensures var col := Column(AllocateDay(g, offDays, d, req, perm), d);
            && (forall w :: 0 <= w < |g| ==> (col[w] == Work <==> w in Staffed(g, offDays, d, req, perm)))
            && Count(col, Work) == Min(req, |Pool(g, offDays, d, perm)|)
  {
    var r := AllocateDay(g, offDays, d, req, perm);
    assert HasColumn(r, d);
    var col := Column(r, d);
    var staffed := Staffed(g, offDays, d, req, perm);
    var pool := Pool(g, offDays, d, perm);
    FilterDistinct(perm, w => Eligible(g, offDays, d, w));
    assert Distinct(staffed);
    DistinctCard(staffed);
    forall w
      ensures w in Positions(col, Work) <==> w in Elements(staffed)
    {
      if w in staffed {
        assert w in pool && w in perm;
      }
    }
    assert Positions(col, Work) == Elements(staffed);
    CountIsCard(col, Work);
  }

  /**
   * The recount after staffing never finds anyone to add: when fewer
   * workers are on than required, every worker of the pool is already on,
   * so the list of pool workers not yet on is empty.
   */
  lemma TopUpFindsNobody(g: Grid, offDays: seq<seq<int>>, d: int, req: int, perm: seq<int>)
    requires HasColumn(g, d) && IsPermutation(perm, |g|)
    ensures var r := AllocateDay(g, offDays, d, req, perm);
            && HasColumn(r, d)
            && var working := IndicesOf(Column(r, d), Work);
               |working| < req ==> Filter(Pool(g, offDays, d, perm), i => i !in working) == []
  {
    var r := AllocateDay(g, offDays, d, req, perm);
    assert HasColumn(r, d);
    var col := Column(r, d);
    var working := IndicesOf(col, Work);
    IndicesOfCount(col, Work);
    if |working| < req {
      var pool := Pool(g, offDays, d, perm);
      DayStaffing(g, offDays, d, req, perm);
      assert |pool| < req;
      assert Staffed(g, offDays, d, req, perm) == pool;
      forall k | 0 <= k < |pool|
        ensures pool[k] in working
      {
        assert pool[k] in Staffed(g, offDays, d, req, perm);
      }
      FilterNone(pool, i => i !in working);
    }
  }

  /** Day `d`'s column of the finished allocation is the one iteration `d` wrote. */
  lemma AllocatedColumn(g: Grid, offDays: seq<seq<int>>, plan: map<string, int>,
                        start: int, perms: seq<seq<int>>, n: nat, d: int)
    requires forall v :: 0 <= v < |g| ==> n <= |g[v]|
    requires PlanCovers(plan, start, n) && n <= |perms|
    requires 0 <= d < n
    ensures var r := AllocateDays(g, offDays, plan, start, perms, n);
            var before := AllocateDays(g, offDays, plan, start, perms, d);
            && HasColumn(r, d) && HasColumn(before, d)
            && Column(r, d) == Column(AllocateDay(before, offDays, d, Required(plan, start, d), perms[d]), d)
  {
    var r := AllocateDays(g, offDays, plan, start, perms, n);
    var before := AllocateDays(g, offDays, plan, start, perms, d);
    var after := AllocateDay(before, offDays, d, Required(plan, start, d), perms[d]);
    assert HasColumn(r, d) && HasColumn(after, d);
    forall w | 0 <= w < |g|
      ensures Column(r, d)[w] == Column(after, d)[w]
    {
      AllocatedCell(g, offDays, plan, start, perms, n, w, d);
    }
  }

  /** The pool holds every eligible worker once. */
  lemma PoolSize(g: Grid, offDays: seq<seq<int>>, d: int, perm: seq<int>)
    requires IsPermutation(perm, |g|)
    ensures |Pool(g, offDays, d, perm)| == |EligibleSet(g, offDays, d)|
  {
    var p := w => Eligible(g, offDays, d, w);
    FilterPermutationCard(perm, |g|, p);
    assert (set v | 0 <= v < |g| && p(v)) == EligibleSet(g, offDays, d);
  }

  /**
   * Counted over the whole allocation: a day with a positive requirement
   * has `min(required, number of eligible workers)` workers on, never more
   * than required.
   */
  lemma StaffingCount(g: Grid, offDays: seq<seq<int>>, plan: map<string, int>,
                      start: int, perms: seq<seq<int>>, n: nat, d: int)
    requires forall v :: 0 <= v < |g| ==> n <= |g[v]|
    requires PlanCovers(plan, start, n) && n <= |perms|
    requires 0 <= d < n && IsPermutation(perms[d], |g|)
    requires Required(plan, start, d) > 0
    ensures var r := AllocateDays(g, offDays, plan, start, perms, n);
            var before := AllocateDays(g, offDays, plan, start, perms, d);
            && HasColumn(r, d)
            && Count(Column(r, d), Work) == Min(Required(plan, start, d), |EligibleSet(before, offDays, d)|)
            && Count(Column(r, d), Work) <= Required(plan, start, d)
  {
    var before := AllocateDays(g, offDays, plan, start, perms, d);
    AllocatedColumn(g, offDays, plan, start, perms, n, d);
    DayStaffing(before, offDays, d, Required(plan, start, d), perms[d]);
    PoolSize(before, offDays, d, perms[d]);
  }

  /**
   * On a day that needs nobody, an eligible worker's cell is left as it was
   * (never written), and every other worker is off; in particular, starting
   * from a blank grid nobody is on that day.
   */
  lemma ZeroRequirementDay(g: Grid, offDays: seq<seq<int>>, plan: map<string, int>,
                           start: int, perms: seq<seq<int>>, n: nat, w: int, d: int)
    requires forall v :: 0 <= v < |g| ==> n <= |g[v]|
    requires PlanCovers(plan, start, n) && n <= |perms|
    requires 0 <= w < |g| && 0 <= d < n
    requires Required(plan, start, d) <= 0
    ensures var r := AllocateDays(g, offDays, plan, start, perms, n);
            var before := AllocateDays(g, offDays, plan, start, perms, d);
            r[w][d] == (if Eligible(before, offDays, d, w) then g[w][d] else Off)
    ensures g[w][d] != Work ==> AllocateDays(g, offDays, plan, start, perms, n)[w][d] != Work
  {
    AllocatedCell(g, offDays, plan, start, perms, n, w, d);
    AllocateDaysFrame(g, offDays, plan, start, perms, d, w, d);
  }
}
