/**
 * The scheduling phases as the roster generator runs them: loops over days
 * and workers that write the marks into the frame in place. Each method is
 * proved to leave the frame holding the value the matching function of
 * `Allocation`, `Balancing` or `Validation` computes from the frame it got.
 */
module Phases {
  import opened Sequences
  import opened WeekConfig
  import opened Schedule
  import opened Allocation
  import opened Balancing
  import opened Validation

  /** Membership in the list once the off-day loop has passed the workers below `w`. */
  function Unmarked(offDays: seq<seq<int>>, d: int, w: int): int -> bool
  {
    x => !(x < w && OffRequested(offDays, x, d))
  }

  /** One iteration of the off-day loop takes the list from one stage to the next. */
  lemma UnmarkStep(perm: seq<int>, offDays: seq<seq<int>>, d: int, w: int, workers: seq<int>)
    requires Distinct(perm) && workers == Filter(perm, Unmarked(offDays, d, w))
    ensures var next := Filter(perm, Unmarked(offDays, d, w + 1));
            if OffRequested(offDays, w, d) && w in workers then Remove(workers, w) == next else workers == next
  {
    if OffRequested(offDays, w, d) && w in workers {
      RemoveFromFilter(perm, Unmarked(offDays, d, w), w, Unmarked(offDays, d, w + 1));
    } else {
      FilterSame(perm, Unmarked(offDays, d, w), Unmarked(offDays, d, w + 1));
    }
  }

  /**
   * The explicit off days of day `d`: every worker who asked for the day
   * gets `""` and leaves the shuffled list `perm`.
   */
  method MarkRequestedOff(grid: array2<Cell>, offDays: seq<seq<int>>, d: int, perm: seq<int>)
    returns (workers: seq<int>)
    requires 0 <= d < grid.Length1 && |offDays| >= grid.Length0
    requires Distinct(perm) && forall k :: 0 <= k < |perm| ==> 0 <= perm[k] < grid.Length0
    modifies grid
    ensures workers == Filter(perm, x => !OffRequested(offDays, x, d))
    ensures forall i, j :: 0 <= i < grid.Length0 && 0 <= j < grid.Length1 ==>
              grid[i, j] == (if j == d && OffRequested(offDays, i, d) then Off else old(grid[i, j]))
  {
    workers := perm;
    assert workers == Filter(perm, Unmarked(offDays, d, 0)) by {
      FilterSame(perm, Unmarked(offDays, d, 0), x => true);
      FilterAll(perm);
    }
    for w := 0 to grid.Length0
      invariant workers == Filter(perm, Unmarked(offDays, d, w))
      invariant forall i, j :: 0 <= i < grid.Length0 && 0 <= j < grid.Length1 && j != d ==> grid[i, j] == old(grid[i, j])
      invariant forall i :: 0 <= i < w ==> grid[i, d] == (if OffRequested(offDays, i, d) then Off else old(grid[i, d]))
      invariant forall i :: w <= i < grid.Length0 ==> grid[i, d] == old(grid[i, d])
    {
      UnmarkStep(perm, offDays, d, w, workers);
      if d + 1 in offDays[w] {
        grid[w, d] := Off;
        if w in workers {
          workers := Remove(workers, w);
        }
      }
    }
    FilterSame(perm, Unmarked(offDays, d, grid.Length0), x => !OffRequested(offDays, x, d));
  }

  /**
   * The number of working marks of worker `w` on the (at most five) days
   * before `d`; the cells read there are those of `row`.
   */
  method CountRecentWork(grid: array2<Cell>, w: int, d: int, ghost row: seq<Cell>) returns (n: int)
    requires 0 <= w < grid.Length0 && 0 <= d <= |row| && d <= grid.Length1
    requires forall j :: 0 <= j < d ==> grid[w, j] == row[j]
    ensures n == Count(Window(row, d), Work)
    ensures n >= 5 <==> Capped(row, d)
  {
    var lo := Max(0, d - 5);
    ghost var recent := Window(row, d);
    n := 0;
    for k := 0 to d - lo
      invariant n == Count(recent[..k], Work)
    {
      CountPrefix(recent, k, Work);
      if grid[w, lo + k] == Work {
        n := n + 1;
      }
    }
    assert recent[..d - lo] == recent;
  }

  /**
   * The rest rule for one worker: `""` on day `d` when it worked the five
   * previous days, whose marks are those of `row`.
   */
  method RestIfCapped(grid: array2<Cell>, x: int, d: int, ghost row: seq<Cell>) returns (capped: bool)
    requires 0 <= x < grid.Length0 && 0 <= d < grid.Length1 && d <= |row|
    requires forall j :: 0 <= j < d ==> grid[x, j] == row[j]
    modifies grid
    ensures capped == Capped(row, d)
    ensures forall i, j :: 0 <= i < grid.Length0 && 0 <= j < grid.Length1 ==>
              grid[i, j] == (if i == x && j == d && capped then Off else old(grid[i, j]))
  {
    var recent := CountRecentWork(grid, x, d, row);
    capped := recent >= 5;
    if capped {
      grid[x, d] := Off;
    }
  }

  /**
   * Where the walk of the rest rule stands after the first `k` workers of
   * `workers`: the live list has lost exactly the visited workers who must
   * rest, and those (`dropped`) are the only cells of the frame changed
   * since `before`.
   */
  ghost predicate RestWalked(grid: array2<Cell>, before: Grid, offDays: seq<seq<int>>, d: int, workers: seq<int>,
                             g: Grid, k: int, pool: seq<int>, dropped: set<int>)
    reads grid
  {
    && 0 <= d < grid.Length1 && 0 <= k <= |workers|
    && |g| == grid.Length0 && IsGrid(g, grid.Length1)
    && |before| == grid.Length0 && IsGrid(before, grid.Length1)
    && (forall m :: 0 <= m < |workers| ==> 0 <= workers[m] < grid.Length0)
    && pool == Filter(workers[..k], x => Eligible(g, offDays, d, x)) + workers[k..]
    && (forall m :: 0 <= m < |workers| ==> (workers[m] in dropped <==> m < k && Capped(g[workers[m]], d)))
    && (forall i :: i in dropped ==> i in workers)
    && (forall i, j :: 0 <= i < grid.Length0 && 0 <= j < grid.Length1 && j != d ==> grid[i, j] == before[i][j])
    && (forall i :: 0 <= i < grid.Length0 ==> grid[i, d] == (if i in dropped then Off else before[i][d]))
  }

  /** One iteration of the rest rule's walk, for the `k`-th worker of the copy. */
  method RestStep(grid: array2<Cell>, ghost before: Grid, offDays: seq<seq<int>>, d: int, workers: seq<int>,
                  ghost g: Grid, k: int, pool: seq<int>, ghost dropped: set<int>)
    returns (pool': seq<int>, ghost dropped': set<int>)
    requires RestWalked(grid, before, offDays, d, workers, g, k, pool, dropped) && k < |workers|
    requires Distinct(workers)
    requires forall m :: 0 <= m < |workers| ==> !OffRequested(offDays, workers[m], d)
    requires forall i, j :: 0 <= i < grid.Length0 && 0 <= j < d ==> before[i][j] == g[i][j]
    modifies grid
    ensures RestWalked(grid, before, offDays, d, workers, g, k + 1, pool', dropped')
  {
    var x := workers[k];
    ghost var next := Filter(workers[..k + 1], y => Eligible(g, offDays, d, y)) + workers[k + 1..];
    assert forall m :: 0 <= m < |workers| && m != k ==> workers[m] != x;
    var capped := RestIfCapped(grid, x, d, g[x]);
    pool', dropped' := pool, dropped;
    if capped {
      assert x in pool && Remove(pool, x) == next by {
        FilterStep(workers, k, y => Eligible(g, offDays, d, y));
      }
      pool' := Remove(pool, x);
      dropped' := dropped + {x};
    } else {
      assert pool == next by {
        FilterStep(workers, k, y => Eligible(g, offDays, d, y));
      }
    }
  }

  /**
   * The rest rule of day `d`: walking over a copy of the list, every worker
   * who worked the five previous days gets `""` and leaves the list. The
   * days before `d` hold the marks of `g`.
   */
  method RestCapped(grid: array2<Cell>, offDays: seq<seq<int>>, d: int, workers: seq<int>, ghost g: Grid)
    returns (pool: seq<int>)
    requires 0 <= d < grid.Length1
    requires |g| == grid.Length0 && IsGrid(g, grid.Length1)
    requires forall i, j :: 0 <= i < grid.Length0 && 0 <= j < d ==> grid[i, j] == g[i][j]
    requires Distinct(workers)
    requires forall k :: 0 <= k < |workers| ==> 0 <= workers[k] < grid.Length0 && !OffRequested(offDays, workers[k], d)
    modifies grid
    ensures pool == Filter(workers, x => Eligible(g, offDays, d, x))
    ensures forall i, j :: 0 <= i < grid.Length0 && 0 <= j < grid.Length1 && j != d ==> grid[i, j] == old(grid[i, j])
    ensures forall i :: 0 <= i < grid.Length0 ==>
              grid[i, d] == (if i in workers && Capped(g[i], d) then Off else old(grid[i, d]))
  {
    ghost var before := Contents(grid);
    pool := workers;
    ghost var dropped: set<int> := {};
    RestWalkedStart(grid, offDays, d, workers, g);
    assert forall i, j :: 0 <= i < grid.Length0 && 0 <= j < d ==> before[i][j] == g[i][j];
    for k := 0 to |workers|
      invariant RestWalked(grid, before, offDays, d, workers, g, k, pool, dropped)
    {
      pool, dropped := RestStep(grid, before, offDays, d, workers, g, k, pool, dropped);
    }
    RestWalkedAll(grid, before, offDays, d, workers, g, pool, dropped);
  }

  /** Before the walk nothing is visited, dropped or changed. */
  lemma RestWalkedStart(grid: array2<Cell>, offDays: seq<seq<int>>, d: int, workers: seq<int>, g: Grid)
    requires 0 <= d < grid.Length1
    requires |g| == grid.Length0 && IsGrid(g, grid.Length1)
    requires forall k :: 0 <= k < |workers| ==> 0 <= workers[k] < grid.Length0
    ensures RestWalked(grid, Contents(grid), offDays, d, workers, g, 0, workers, {})
  {
    assert workers[..0] == [];
  }

  /** Once the walk has visited every worker, the capped workers of the copy are the ones dropped. */
  lemma RestWalkedAll(grid: array2<Cell>, before: Grid, offDays: seq<seq<int>>, d: int, workers: seq<int>,
                      g: Grid, pool: seq<int>, dropped: set<int>)
    requires RestWalked(grid, before, offDays, d, workers, g, |workers|, pool, dropped)
    ensures pool == Filter(workers, x => Eligible(g, offDays, d, x))
    ensures forall i, j :: 0 <= i < grid.Length0 && 0 <= j < grid.Length1 && j != d ==> grid[i, j] == before[i][j]
    ensures forall i :: 0 <= i < grid.Length0 ==>
              grid[i, d] == (if i in workers && Capped(g[i], d) then Off else before[i][d])
  {
    assert workers[..|workers|] == workers;
    forall i | 0 <= i < grid.Length0
      ensures i in dropped <==> i in workers && Capped(g[i], d)
    {
      if i in workers {
        var m :| 0 <= m < |workers| && workers[m] == i;
      }
    }
  }

  /**
   * The staffing of a day that needs `req > 0` workers: the first `req` of
   * the list get `"X"`, the others `""`.
   */
  method StaffDay(grid: array2<Cell>, d: int, pool: seq<int>, req: int)
    requires 0 <= d < grid.Length1 && req > 0
    requires Distinct(pool) && forall k :: 0 <= k < |pool| ==> 0 <= pool[k] < grid.Length0
    modifies grid
    ensures forall i, j :: 0 <= i < grid.Length0 && 0 <= j < grid.Length1 ==>
              grid[i, j] == (if j == d && i in pool then (if i in pool[..Min(req, |pool|)] then Work else Off)
                             else old(grid[i, j]))
  {
    var m := Min(req, |pool|);
    var staffed := pool[..m];
    for k := 0 to |staffed|
      invariant forall i, j :: 0 <= i < grid.Length0 && 0 <= j < grid.Length1 ==>
                  grid[i, j] == (if j == d && i in staffed[..k] then Work else old(grid[i, j]))
    {
      assert staffed[..k + 1] == staffed[..k] + [staffed[k]];
      grid[staffed[k], d] := Work;
    }
    assert staffed[..|staffed|] == staffed;
    var rest := pool[m..];
    for k := 0 to |rest|
      invariant forall i, j :: 0 <= i < grid.Length0 && 0 <= j < grid.Length1 ==>
                  grid[i, j] == (if j == d && i in staffed then Work
                                 else if j == d && i in rest[..k] then Off
                                 else old(grid[i, j]))
    {
      assert rest[..k + 1] == rest[..k] + [rest[k]];
      assert rest[k] !in staffed by {
        assert rest[k] == pool[m + k];
        assert forall i :: 0 <= i < m ==> staffed[i] == pool[i] != pool[m + k];
      }
      grid[rest[k], d] := Off;
    }
    assert rest[..|rest|] == rest;
    assert pool == staffed + rest;
  }

  /**
   * The first three steps of one iteration of the day loop of `look_column`:
   * explicit off days, the rest rule and the staffing. The list left over
   * is the day's pool.
   */
  method StaffDayInPlace(grid: array2<Cell>, offDays: seq<seq<int>>, d: int, req: int, perm: seq<int>)
    returns (workers: seq<int>)
    requires 0 <= d < grid.Length1 && |offDays| >= grid.Length0
    requires IsPermutation(perm, grid.Length0)
    modifies grid
    ensures workers == Pool(old(Contents(grid)), offDays, d, perm)
    ensures forall k :: 0 <= k < |workers| ==> 0 <= workers[k] < grid.Length0
    ensures Contents(grid) == AllocateDay(old(Contents(grid)), offDays, d, req, perm)
  {
    ghost var g := Contents(grid);
    workers := MarkRequestedOff(grid, offDays, d, perm);
    ghost var g1 := Contents(grid);
    PoolStages(g, offDays, d, perm, grid.Length0);
    workers := RestCapped(grid, offDays, d, workers, g);
    ghost var g2 := Contents(grid);
    if req > 0 {
      StaffDay(grid, d, workers, req);
    }
    AllocatedDayCells(grid, g, g1, g2, offDays, d, req, perm, workers);
  }

  /**
   * One iteration of the day loop of `look_column`: explicit off days, the
   * rest rule, the staffing, and the top-up, whose recount finds nobody to add.
   */
  method AllocateDayInPlace(grid: array2<Cell>, offDays: seq<seq<int>>, d: int, req: int, perm: seq<int>)
    requires 0 <= d < grid.Length1 && |offDays| >= grid.Length0
    requires IsPermutation(perm, grid.Length0)
    modifies grid
    ensures Contents(grid) == AllocateDay(old(Contents(grid)), offDays, d, req, perm)
  {
    ghost var g := Contents(grid);
    var workers := StaffDayInPlace(grid, offDays, d, req, perm);
    ghost var g3 := Contents(grid);
    assert TopUpList(g3, d, req, workers) == [] by {
      TopUpFindsNobody(g, offDays, d, req, perm);
    }
    TopUp(grid, d, req, workers);
  }

  /**
   * The workers the top-up of day `d` adds: when fewer than `req` work,
   * the first missing-count workers of `workers` who do not work yet.
   */
  function TopUpList(g: Grid, d: int, req: int, workers: seq<int>): (r: seq<int>)
    requires HasColumn(g, d)
    ensures forall i :: i in r ==> i in workers && (0 <= i < |g| ==> g[i][d] != Work)
    ensures |IndicesOf(Column(g, d), Work)| >= req ==> r == []
  {
    var working := IndicesOf(Column(g, d), Work);
    if |working| < req then
      var available := Filter(workers, i => i !in working);
      var r := available[..Min(|available|, req - |working|)];
      assert forall i :: i in r ==> i in available;
      r
    else []
  }

  /**
   * The recount and top-up of `look_column`: the workers of `TopUpList`
   * get `"X"` on day `d`, and nothing else changes.
   */
  method TopUp(grid: array2<Cell>, d: int, req: int, workers: seq<int>)
    requires 0 <= d < grid.Length1
    requires forall k :: 0 <= k < |workers| ==> 0 <= workers[k] < grid.Length0
    modifies grid
    ensures forall i, j :: 0 <= i < grid.Length0 && 0 <= j < grid.Length1 ==>
              grid[i, j] == (if j == d && i in TopUpList(old(Contents(grid)), d, req, workers) then Work
                             else old(grid[i, j]))
    ensures TopUpList(old(Contents(grid)), d, req, workers) == [] ==> Contents(grid) == old(Contents(grid))
  {
    ghost var g := Contents(grid);
    var working := IndicesOf(Column(Contents(grid), d), Work);
    if |working| < req {
      var available := Filter(workers, i => i !in working);
      var extra := available[..Min(|available|, req - |working|)];
      assert forall k :: 0 <= k < |extra| ==> extra[k] in available;
      MarkWorkers(grid, d, extra, Work);
    }
    if TopUpList(g, d, req, workers) == [] {
      GridExt(Contents(grid), g, grid.Length1);
    }
  }

  /**
   * The write loop of the top-up: the listed workers get the mark on day
   * `d`, and nothing else changes.
   */
  method MarkWorkers(grid: array2<Cell>, d: int, workers: seq<int>, c: Cell)
    requires 0 <= d < grid.Length1
    requires forall k :: 0 <= k < |workers| ==> 0 <= workers[k] < grid.Length0
    modifies grid
    ensures forall i, j :: 0 <= i < grid.Length0 && 0 <= j < grid.Length1 ==>
              grid[i, j] == (if j == d && i in workers then c else old(grid[i, j]))
  {
    for k := 0 to |workers|
      invariant forall i, j :: 0 <= i < grid.Length0 && 0 <= j < grid.Length1 ==>
                  grid[i, j] == (if j == d && i in workers[..k] then c else old(grid[i, j]))
    {
      assert workers[..k + 1] == workers[..k] + [workers[k]];
      grid[workers[k], d] := c;
    }
    assert workers[..|workers|] == workers;
  }

  /**
   * The list after the explicit off days holds distinct workers none of
   * whom asked for the day, and dropping the capped ones from it leaves
   * the day's pool.
   */
  lemma PoolStages(g: Grid, offDays: seq<seq<int>>, d: int, perm: seq<int>, n: nat)
    requires IsPermutation(perm, n)
    ensures var marked := Filter(perm, x => !OffRequested(offDays, x, d));
            && Distinct(marked)
            && (forall k :: 0 <= k < |marked| ==> 0 <= marked[k] < n && !OffRequested(offDays, marked[k], d))
            && Filter(marked, x => Eligible(g, offDays, d, x)) == Pool(g, offDays, d, perm)
    ensures var pool := Pool(g, offDays, d, perm);
            Distinct(pool) && forall k :: 0 <= k < |pool| ==> 0 <= pool[k] < n
  {
    var marked := Filter(perm, x => !OffRequested(offDays, x, d));
    FilterDistinct(perm, x => !OffRequested(offDays, x, d));
    assert forall k :: 0 <= k < |marked| ==> marked[k] in marked;
    FilterFilter(perm, x => !OffRequested(offDays, x, d), x => Eligible(g, offDays, d, x),
                 x => Eligible(g, offDays, d, x));
    var pool := Pool(g, offDays, d, perm);
    FilterDistinct(perm, x => Eligible(g, offDays, d, x));
    assert forall k :: 0 <= k < |pool| ==> pool[k] in pool;
  }

  /** The cells the three steps of a day leave, read against `AllocateDay`. */
  lemma AllocatedDayCells(grid: array2<Cell>, g: Grid, g1: Grid, g2: Grid, offDays: seq<seq<int>>,
                          d: int, req: int, perm: seq<int>, pool: seq<int>)
    requires 0 <= d < grid.Length1 && IsPermutation(perm, grid.Length0)
    requires |g| == |g1| == |g2| == grid.Length0
    requires IsGrid(g, grid.Length1) && IsGrid(g1, grid.Length1) && IsGrid(g2, grid.Length1)
    requires pool == Pool(g, offDays, d, perm)
    requires forall i, j :: 0 <= i < grid.Length0 && 0 <= j < grid.Length1 ==>
               g1[i][j] == (if j == d && OffRequested(offDays, i, d) then Off else g[i][j])
    requires forall i, j :: 0 <= i < grid.Length0 && 0 <= j < grid.Length1 && j != d ==> g2[i][j] == g1[i][j]
    requires forall i :: 0 <= i < grid.Length0 ==>
               g2[i][d] == (if i in Filter(perm, x => !OffRequested(offDays, x, d)) && Capped(g[i], d) then Off
                            else g1[i][d])
    requires req > 0 ==> forall i, j :: 0 <= i < grid.Length0 && 0 <= j < grid.Length1 ==>
               grid[i, j] == (if j == d && i in pool then (if i in pool[..Min(req, |pool|)] then Work else Off)
                              else g2[i][j])
    requires req <= 0 ==> forall i, j :: 0 <= i < grid.Length0 && 0 <= j < grid.Length1 ==> grid[i, j] == g2[i][j]
    ensures Contents(grid) == AllocateDay(g, offDays, d, req, perm)
  {
    var r := AllocateDay(g, offDays, d, req, perm);
    forall i, j | 0 <= i < grid.Length0 && 0 <= j < grid.Length1
      ensures Contents(grid)[i][j] == r[i][j]
    {
      if j == d {
        assert i in perm;
        if Eligible(g, offDays, d, i) {
          assert i in pool;
        } else {
          assert i !in pool;
        }
      }
    }
    GridExt(Contents(grid), r, grid.Length1);
  }

  /**
   * The day loop of `look_column`: every day of the frame in order, each
   * staffed from its weekday's requirement and that day's shuffle.
   */
  method AllocateDaysInPlace(grid: array2<Cell>, offDays: seq<seq<int>>, plan: map<string, int>, start: int,
                             perms: seq<seq<int>>)
    requires |offDays| >= grid.Length0
    requires PlanCovers(plan, start, grid.Length1)
    requires |perms| >= grid.Length1 && forall d :: 0 <= d < grid.Length1 ==> IsPermutation(perms[d], grid.Length0)
    modifies grid
    ensures Contents(grid) == AllocateDays(old(Contents(grid)), offDays, plan, start, perms, grid.Length1)
  {
    ghost var g := Contents(grid);
    for d := 0 to grid.Length1
      invariant Contents(grid) == AllocateDays(g, offDays, plan, start, perms, d)
    {
      var key := WeekdayKey(start, d);
      var required := plan[key];
      AllocateDayInPlace(grid, offDays, d, required, perms[d]);
    }
  }

  /**
   * Marks the listed days of worker `w` with `c`; the list is a slice of a
   * shuffled list of that worker's days.
   */
  method MarkDays(grid: array2<Cell>, w: int, days: seq<int>, c: Cell)
    requires 0 <= w < grid.Length0
    requires forall k :: 0 <= k < |days| ==> 0 <= days[k] < grid.Length1
    modifies grid
    ensures forall i, j :: 0 <= i < grid.Length0 && 0 <= j < grid.Length1 ==>
              grid[i, j] == (if i == w && j in days then c else old(grid[i, j]))
  {
    for k := 0 to |days|
      invariant forall i, j :: 0 <= i < grid.Length0 && 0 <= j < grid.Length1 ==>
                  grid[i, j] == (if i == w && j in days[..k] then c else old(grid[i, j]))
    {
      assert days[..k + 1] == days[..k] + [days[k]];
      grid[w, days[k]] := c;
    }
    assert days[..|days|] == days;
  }

  /**
   * One iteration of the worker loop of the balancing: worker `w` moves
   * towards `target` days off by flipping shuffled working days to `""`
   * or shuffled days off to `"X"`; no other row changes.
   */
  method BalanceRowInPlace(grid: array2<Cell>, w: int, target: int, order: seq<int>)
    requires 0 <= w < grid.Length0
    modifies grid
    ensures Contents(grid) == old(Contents(grid))[w := BalanceRow(old(Contents(grid))[w], target, order)]
  {
    ghost var g := Contents(grid);
    ghost var row := g[w];
    var current := Count(Contents(grid)[w], Off);
    if current < target {
      var toOff := target - current;
      var working := Shuffled(order, IndicesOf(Contents(grid)[w], Work));
      var chosen := working[..Min(toOff, |working|)];
      assert forall k :: 0 <= k < |chosen| ==> chosen[k] in working;
      MarkDays(grid, w, chosen, Off);
      assert chosen == Flips(row, target, order);
      RowReplaced(grid, g, w, FlipTo(row, chosen, Off));
    } else if current > target {
      var excess := current - target;
      var offList := Shuffled(order, IndicesOf(Contents(grid)[w], Off));
      var chosen := offList[..Min(excess, |offList|)];
      assert forall k :: 0 <= k < |chosen| ==> chosen[k] in offList;
      MarkDays(grid, w, chosen, Work);
      assert chosen == Flips(row, target, order);
      RowReplaced(grid, g, w, FlipTo(row, chosen, Work));
    } else {
      assert g[w := row] == g;
    }
  }

  /** A frame that differs from `g` in row `w` only holds `g` with that row replaced. */
  lemma RowReplaced(grid: array2<Cell>, g: Grid, w: int, row: seq<Cell>)
    requires |g| == grid.Length0 && IsGrid(g, grid.Length1) && 0 <= w < |g| && |row| == grid.Length1
    requires forall i, j :: 0 <= i < grid.Length0 && 0 <= j < grid.Length1 ==>
               grid[i, j] == (if i == w then row[j] else g[i][j])
    ensures Contents(grid) == g[w := row]
  {
    GridExt(Contents(grid), g[w := row], grid.Length1);
  }

  /** The worker loop of the balancing, worker `w` towards `targets[w]` days off. */
  method BalanceDaysOff(grid: array2<Cell>, targets: seq<int>, orders: seq<seq<int>>)
    requires |targets| >= grid.Length0 && |orders| >= grid.Length0
    modifies grid
    ensures Contents(grid) == BalanceAll(old(Contents(grid)), targets, orders)
  {
    ghost var g := Contents(grid);
    for w := 0 to grid.Length0
      invariant |Contents(grid)| == |g|
      invariant forall i :: 0 <= i < |g| ==>
                  Contents(grid)[i] == (if i < w then BalanceRow(g[i], targets[i], orders[i]) else g[i])
    {
      BalanceRowInPlace(grid, w, targets[w], orders[w]);
    }
  }

  /**
   * `look_column`: the day loop, then the balancing of the days off. The
   * shuffles are `perms` (one per day) and `orders` (one per worker).
   */
  method LookColumn(grid: array2<Cell>, dictDays: seq<int>, offDays: seq<seq<int>>, start: int,
                    plan: map<string, int>, perms: seq<seq<int>>, orders: seq<seq<int>>)
    requires |offDays| >= grid.Length0
    requires PlanCovers(plan, start, grid.Length1)
    requires |perms| >= grid.Length1 && forall d :: 0 <= d < grid.Length1 ==> IsPermutation(perms[d], grid.Length0)
    requires |dictDays| >= grid.Length0 && |orders| >= grid.Length0
    modifies grid
    ensures Contents(grid) == BalanceAll(AllocateDays(old(Contents(grid)), offDays, plan, start, perms, grid.Length1),
                                         dictDays, orders)
  {
    AllocateDaysInPlace(grid, offDays, plan, start, perms);
    BalanceDaysOff(grid, dictDays, orders);
  }

  /** Every cell of day `d` that is not a working mark becomes `"?"`. */
  method FlagDay(grid: array2<Cell>, d: int)
    requires 0 <= d < grid.Length1
    modifies grid
    ensures forall i, j :: 0 <= i < grid.Length0 && 0 <= j < grid.Length1 ==>
              grid[i, j] == (if j == d && old(grid[i, j]) != Work then Short else old(grid[i, j]))
  {
    for w := 0 to grid.Length0
      invariant forall i, j :: 0 <= i < grid.Length0 && 0 <= j < grid.Length1 ==>
                  grid[i, j] == (if j == d && i < w && old(grid[i, j]) != Work then Short else old(grid[i, j]))
    {
      if grid[w, d] != Work {
        grid[w, d] := Short;
      }
    }
  }

  /**
   * `validate_schedule_with_question_marks`: day by day, a day with fewer
   * working marks than required gets `"?"` in every other cell.
   */
  method ValidateSchedule(grid: array2<Cell>, plan: map<string, int>, start: int)
    requires PlanCovers(plan, start, grid.Length1)
    modifies grid
    ensures Contents(grid) == Validate(old(Contents(grid)), plan, start, grid.Length1)
  {
    ghost var g := Contents(grid);
    ghost var v := Validate(g, plan, start, grid.Length1);
    for d := 0 to grid.Length1
      invariant forall i, j :: 0 <= i < grid.Length0 && 0 <= j < grid.Length1 ==>
                  grid[i, j] == (if j < d then v[i][j] else g[i][j])
    {
      var required := plan[WeekdayKey(start, d)];
      assert Column(Contents(grid), d) == Column(g, d);
      var present := Count(Column(Contents(grid), d), Work);
      if present < required {
        FlagDay(grid, d);
      }
    }
    GridExt(Contents(grid), v, grid.Length1);
  }
}
