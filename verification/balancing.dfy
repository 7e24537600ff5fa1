/**
 * Phase B of the roster generator, the days-off balancing, as pure
 * functions on rows. Each worker's row is brought towards the worker's
 * target number of days off: with too few, randomly chosen working days
 * become days off; with too many, randomly chosen days off become working
 * days. Cells that are neither (never written) are not touched.
 *
 * The shuffle is an input: `order` is a permutation of the day indices,
 * and a shuffled list of days is those days in the order `order` lists them.
 */
module Balancing {
  import opened Sequences
  import opened Schedule

  /** `random.shuffle(days)`, with the shuffle fixed by `order`. */
  function Shuffled(order: seq<int>, days: seq<int>): (r: seq<int>)
    ensures forall x :: x in r <==> x in order && x in days
  {
    Filter(order, x => x in days)
  }

  /** The row with the cells of `days` set to `c`. */
  function FlipTo(row: seq<Cell>, days: seq<int>, c: Cell): (r: seq<Cell>)
    ensures |r| == |row|
    ensures forall j :: 0 <= j < |row| ==> r[j] == (if j in days then c else row[j])
  {
    seq(|row|, j requires 0 <= j < |row| => if j in days then c else row[j])
  }

  /**
   * The days whose mark the balancing flips: the first `target - off`
   * shuffled working days when the row has too few days off, the first
   * `off - target` shuffled days off when it has too many.
   */
  function Flips(row: seq<Cell>, target: int, order: seq<int>): (r: seq<int>)
    ensures forall x :: x in r ==> 0 <= x < |row| && row[x] == (if Count(row, Off) < target then Work else Off)
    ensures Count(row, Off) == target ==> r == []
  {
    var off := Count(row, Off);
    if off < target then
      var working := Shuffled(order, IndicesOf(row, Work));
      var m := Min(target - off, |working|);
      assert forall i :: 0 <= i < m ==> working[..m][i] == working[i];
      assert forall x :: x in working[..m] ==> x in working;
      working[..m]
    else if off > target then
      var offList := Shuffled(order, IndicesOf(row, Off));
      var m := Min(off - target, |offList|);
      assert forall i :: 0 <= i < m ==> offList[..m][i] == offList[i];
      assert forall x :: x in offList[..m] ==> x in offList;
      offList[..m]
    else []
  }

  /** One iteration of the worker loop of the balancing. */
  function BalanceRow(row: seq<Cell>, target: int, order: seq<int>): (r: seq<Cell>)
    ensures |r| == |row|
  {
    var off := Count(row, Off);
    if off < target then FlipTo(row, Flips(row, target, order), Off)
    else if off > target then FlipTo(row, Flips(row, target, order), Work)
    else row
  }

  /** The balancing of every row, worker `w` towards `targets[w]` days off. */
  function BalanceAll(g: Grid, targets: seq<int>, orders: seq<seq<int>>): (r: Grid)
    requires |targets| >= |g| && |orders| >= |g|
    ensures |r| == |g|
    ensures forall w :: 0 <= w < |g| ==> r[w] == BalanceRow(g[w], targets[w], orders[w])
  {
    seq(|g|, w requires 0 <= w < |g| => BalanceRow(g[w], targets[w], orders[w]))
  }

  /**
   * The balancing flips only working days to days off (when the row had
   * fewer days off than the target) or days off to working days (when it
   * had more); every other cell, an unwritten one in particular, is kept.
   */
  lemma BalanceRowFlipsOnly(row: seq<Cell>, target: int, order: seq<int>, j: int)
    requires 0 <= j < |row|
    ensures var r := BalanceRow(row, target, order);
            r[j] != row[j] ==>
              || (row[j] == Work && r[j] == Off && Count(row, Off) < target)
              || (row[j] == Off && r[j] == Work && Count(row, Off) > target)
  {
    var off := Count(row, Off);
    var flips := Flips(row, target, order);
    if off < target {
      var working := Shuffled(order, IndicesOf(row, Work));
      if j in flips {
        assert j in working;
      }
    } else if off > target {
      var offList := Shuffled(order, IndicesOf(row, Off));
      if j in flips {
        assert j in offList;
      }
    }
  }

  /** The balancing flips only between working and off, so a row without `"?"` keeps none. */
  lemma BalanceKeepsNoShort(row: seq<Cell>, target: int, order: seq<int>)
    requires forall j :: 0 <= j < |row| ==> row[j] != Short
    ensures var r := BalanceRow(row, target, order);
            forall j :: 0 <= j < |r| ==> r[j] != Short
  {
    forall j | 0 <= j < |row|
      ensures BalanceRow(row, target, order)[j] != Short
    {
      BalanceRowFlipsOnly(row, target, order, j);
    }
  }

  /** Balancing every row writes no `"?"` either. */
  lemma BalanceAllKeepsNoShort(g: Grid, targets: seq<int>, orders: seq<seq<int>>)
    requires |targets| >= |g| && |orders| >= |g| && NoShort(g)
    ensures NoShort(BalanceAll(g, targets, orders))
  {
    var r := BalanceAll(g, targets, orders);
    forall w | 0 <= w < |r|
      ensures forall j :: 0 <= j < |r[w]| ==> r[w][j] != Short
    {
      BalanceKeepsNoShort(g[w], targets[w], orders[w]);
    }
  }

  /** The shuffled days marked `c`: each once, as many as the row has. */
  lemma CandidatesCount(row: seq<Cell>, order: seq<int>, c: Cell)
    requires IsPermutation(order, |row|)
    ensures var cand := Shuffled(order, IndicesOf(row, c));
            && Distinct(cand)
            && |cand| == Count(row, c)
            && forall x :: x in cand ==> 0 <= x < |row| && row[x] == c
  {
    var p := x => x in IndicesOf(row, c);
    FilterPermutationCard(order, |row|, p);
    CountIsCard(row, c);
    var a := set v | 0 <= v < |row| && p(v);
    forall v
      ensures v in a <==> v in Positions(row, c)
    {
    }
    assert a == Positions(row, c);
  }

  /**
   * Flipping distinct cells that all hold `from` to `to` moves exactly that
   * many cells from one mark to the other.
   */
  lemma FlipCount(row: seq<Cell>, days: seq<int>, from: Cell, to: Cell)
    requires from != to && Distinct(days)
    requires forall x :: x in days ==> 0 <= x < |row| && row[x] == from
    ensures Count(FlipTo(row, days, to), to) == Count(row, to) + |days|
    ensures Count(FlipTo(row, days, to), from) == Count(row, from) - |days|
  {
    DistinctCard(days);
    FlipGains(row, days, from, to);
    FlipLoses(row, days, from, to);
  }

  lemma FlipGains(row: seq<Cell>, days: seq<int>, from: Cell, to: Cell)
    requires from != to
    requires forall x :: x in days ==> 0 <= x < |row| && row[x] == from
    ensures Count(FlipTo(row, days, to), to) == Count(row, to) + |Elements(days)|
  {
    var r := FlipTo(row, days, to);
    var ds := Elements(days);
    var before := Positions(row, to);
    var after := Positions(r, to);
    forall x
      ensures x in after <==> x in before || x in ds
    {
      if 0 <= x < |row| {
        assert r[x] == (if x in days then to else row[x]);
      }
    }
    assert after == before + ds;
    forall x | x in ds
      ensures x !in before
    {
      assert row[x] == from;
    }
    assert before * ds == {};
    CountIsCard(row, to);
    CountIsCard(r, to);
  }

  lemma FlipLoses(row: seq<Cell>, days: seq<int>, from: Cell, to: Cell)
    requires from != to
    requires forall x :: x in days ==> 0 <= x < |row| && row[x] == from
    ensures Count(FlipTo(row, days, to), from) == Count(row, from) - |Elements(days)|
  {
    var r := FlipTo(row, days, to);
    var ds := Elements(days);
    var before := Positions(row, from);
    var after := Positions(r, from);
    forall x
      ensures x in before <==> x in after || x in ds
    {
      if 0 <= x < |row| {
        assert r[x] == (if x in days then to else row[x]);
      }
    }
    assert before == after + ds;
    assert after * ds == {};
    CountIsCard(row, from);
    CountIsCard(r, from);
  }

  /** With too few days off, the flipped working days are `min(target - off, work)` many. */
  lemma RaiseFlips(row: seq<Cell>, target: int, order: seq<int>)
    requires IsPermutation(order, |row|)
    requires Count(row, Off) < target
    ensures Count(BalanceRow(row, target, order), Off) == Count(row, Off) + |Flips(row, target, order)|
    ensures Count(BalanceRow(row, target, order), Work) == Count(row, Work) - |Flips(row, target, order)|
  {
    var working := Shuffled(order, IndicesOf(row, Work));
    CandidatesCount(row, order, Work);
    var m := Min(target - Count(row, Off), |working|);
    assert Flips(row, target, order) == working[..m];
    FlipPrefix(row, working, m, Work, Off);
  }

  /** Flipping the first `m` of distinct candidate cells that hold `from` moves `m` cells to `to`. */
  lemma FlipPrefix(row: seq<Cell>, cand: seq<int>, m: int, from: Cell, to: Cell)
    requires from != to && Distinct(cand) && 0 <= m <= |cand|
    requires forall x :: x in cand ==> 0 <= x < |row| && row[x] == from
    ensures Count(FlipTo(row, cand[..m], to), to) == Count(row, to) + m
    ensures Count(FlipTo(row, cand[..m], to), from) == Count(row, from) - m
  {
    var flips := cand[..m];
    assert forall x :: x in flips ==> x in cand;
    FlipCount(row, flips, from, to);
  }

  /** With too few days off, `min(target - off, work)` working days are flipped. */
  lemma RaiseLength(row: seq<Cell>, target: int, order: seq<int>)
    requires |Shuffled(order, IndicesOf(row, Work))| == Count(row, Work)
    requires Count(row, Off) < target
    ensures |Flips(row, target, order)| == Min(target - Count(row, Off), Count(row, Work))
  {
    var working := Shuffled(order, IndicesOf(row, Work));
    var m := Min(target - Count(row, Off), Count(row, Work));
    assert 0 <= m <= |working|;
    assert Flips(row, target, order) == working[..m];
  }

  /** With too many days off, `min(off - target, off)` days off are flipped. */
  lemma LowerLength(row: seq<Cell>, target: int, order: seq<int>)
    requires |Shuffled(order, IndicesOf(row, Off))| == Count(row, Off)
    requires Count(row, Off) > target
    ensures |Flips(row, target, order)| == Min(Count(row, Off) - target, Count(row, Off))
  {
    var offList := Shuffled(order, IndicesOf(row, Off));
    var m := Min(Count(row, Off) - target, Count(row, Off));
    assert 0 <= m <= |offList|;
    assert Flips(row, target, order) == offList[..m];
  }

  lemma CandidatesLength(row: seq<Cell>, order: seq<int>, c: Cell)
    requires IsPermutation(order, |row|)
    ensures |Shuffled(order, IndicesOf(row, c))| == Count(row, c)
  {
    CandidatesCount(row, order, c);
  }

  /** With too many days off, the flipped days off are `min(off - target, off)` many. */
  lemma LowerFlips(row: seq<Cell>, target: int, order: seq<int>)
    requires IsPermutation(order, |row|)
    requires Count(row, Off) > target
    ensures Count(BalanceRow(row, target, order), Off) == Count(row, Off) - |Flips(row, target, order)|
    ensures Count(BalanceRow(row, target, order), Work) == Count(row, Work) + |Flips(row, target, order)|
  {
    var offList := Shuffled(order, IndicesOf(row, Off));
    CandidatesCount(row, order, Off);
    var m := Min(Count(row, Off) - target, |offList|);
    assert Flips(row, target, order) == offList[..m];
    FlipPrefix(row, offList, m, Off, Work);
  }

  /**
   * A row with fewer days off than its target gets `min(target, off + work)`
   * of them: the missing ones, or every working day when there are not enough.
   */
  lemma BalanceRaisesDaysOff(row: seq<Cell>, target: int, order: seq<int>)
    requires IsPermutation(order, |row|)
    requires Count(row, Off) < target
    ensures var r := BalanceRow(row, target, order);
            && Count(r, Off) == Min(target, Count(row, Off) + Count(row, Work))
            && Count(r, Work) == Count(row, Work) - (Count(r, Off) - Count(row, Off))
  {
    RaiseFlips(row, target, order);
    CandidatesLength(row, order, Work);
    RaiseLength(row, target, order);
    RaisedCounts(row, target, Flips(row, target, order), BalanceRow(row, target, order));
  }

  /**
   * A row with more days off than its target keeps exactly `target` of
   * them (none when the target is negative).
   */
  lemma BalanceLowersDaysOff(row: seq<Cell>, target: int, order: seq<int>)
    requires IsPermutation(order, |row|)
    requires Count(row, Off) > target
    ensures var r := BalanceRow(row, target, order);
            && Count(r, Off) == Max(target, 0)
            && Count(r, Work) == Count(row, Work) + (Count(row, Off) - Max(target, 0))
  {
    LowerFlips(row, target, order);
    CandidatesLength(row, order, Off);
    LowerLength(row, target, order);
    LoweredCounts(row, target, Flips(row, target, order), BalanceRow(row, target, order));
  }

  /**
   * When every cell of the row is written (working or off) and the target
   * is between zero and the number of days, the row ends with exactly the
   * target number of days off.
   */
  lemma BalanceMeetsTarget(row: seq<Cell>, target: int, order: seq<int>)
    requires IsPermutation(order, |row|)
    requires forall j :: 0 <= j < |row| ==> row[j] == Work || row[j] == Off
    requires 0 <= target <= |row|
    ensures Count(BalanceRow(row, target, order), Off) == target
  {
    WorkOffSplit(row);
    if Count(row, Off) < target {
      RaisingMeetsTarget(row, target, order);
    } else if Count(row, Off) > target {
      BalanceLowersDaysOff(row, target, order);
    }
  }

  lemma RaisingMeetsTarget(row: seq<Cell>, target: int, order: seq<int>)
    requires IsPermutation(order, |row|)
    requires Count(row, Work) + Count(row, Off) == |row|
    requires Count(row, Off) < target <= |row|
    ensures Count(BalanceRow(row, target, order), Off) == target
  {
    var r := BalanceRow(row, target, order);
    assert Count(r, Off) == Min(target, Count(row, Off) + Count(row, Work)) by {
      BalanceRaisesDaysOff(row, target, order);
    }
    ReachedTargetCounts(Count(row, Work), Count(row, Off), |row|, target, Count(r, Off));
  }

  /** The arithmetic of the raising case, over plain numbers. */
  lemma ReachedTargetCounts(work: int, off: int, days: int, target: int, reached: int)
    requires work + off == days && target <= days
    requires reached == Min(target, off + work)
    ensures reached == target
  {
  }

  /** The arithmetic of the raising case, over the counts alone. */
  lemma RaisedCounts(row: seq<Cell>, target: int, flips: seq<int>, r: seq<Cell>)
    requires Count(row, Off) < target
    requires |flips| == Min(target - Count(row, Off), Count(row, Work))
    requires Count(r, Off) == Count(row, Off) + |flips|
    requires Count(r, Work) == Count(row, Work) - |flips|
    ensures Count(r, Off) == Min(target, Count(row, Off) + Count(row, Work))
    ensures Count(r, Work) == Count(row, Work) - (Count(r, Off) - Count(row, Off))
  {
  }

  /** The arithmetic of the lowering case, over the counts alone. */
  lemma LoweredCounts(row: seq<Cell>, target: int, flips: seq<int>, r: seq<Cell>)
    requires Count(row, Off) > target
    requires |flips| == Min(Count(row, Off) - target, Count(row, Off))
    requires Count(r, Off) == Count(row, Off) - |flips|
    requires Count(r, Work) == Count(row, Work) + |flips|
    ensures Count(r, Off) == Max(target, 0)
    ensures Count(r, Work) == Count(row, Work) + (Count(row, Off) - Max(target, 0))
  {
  }

  /** A row holding only working days and days off has as many as it has cells. */
  lemma {:induction false} WorkOffSplit(row: seq<Cell>)
    requires forall j :: 0 <= j < |row| ==> row[j] == Work || row[j] == Off
    ensures Count(row, Work) + Count(row, Off) == |row|
  {
    if row != [] {
      WorkOffSplit(row[..|row| - 1]);
    }
  }
}
