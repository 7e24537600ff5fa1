/**
 * The roster model builder: turns the positional record list (metadata
 * record first, one record per worker, weekly plan record last) into the
 * inputs of the assignment engine, and builds the trailing creator row.
 */
module Records {
  import opened Sequences
  import opened Numerals
  import opened WeekConfig

  /**
   * One input record, a dictionary whose keys may be absent (`None`).
   * `week` holds the seven staffing counts already turned into integers.
   */
  datatype Record = Record(
    creator: Option<string>,
    firmName: Option<string>,
    name: Option<string>,
    days: Option<int>,
    personal: Option<string>,
    week: Option<seq<int>>)

  /** The exceptions the builder can raise: ValueError, KeyError, IndexError, and a length mismatch. */
  datatype Error =
    | NotAnInteger(token: string)
    | MissingKey(key: string)
    | IndexOutOfRange
    | LengthMismatch

  /** `data[1:-1]`: the worker records; empty when there are fewer than two records. */
  function Middle(data: seq<Record>): (r: seq<Record>)
    ensures |r| == (if |data| >= 2 then |data| - 2 else 0)
    ensures forall i :: 0 <= i < |r| ==> r[i] == data[i + 1]
  {
    if |data| >= 2 then data[1..|data| - 1] else []
  }

  /** `int()` applied to every token, each on its own. */
  function Parsed(tokens: seq<string>): (ps: seq<Option<int>>)
    ensures |ps| == |tokens| && forall i :: 0 <= i < |tokens| ==> ps[i] == ParseInt(tokens[i])
  {
    seq(|tokens|, i requires 0 <= i < |tokens| => ParseInt(tokens[i]))
  }

  /**
   * Walks the tokens in order with their parse results: the list of values,
   * or the first token whose result is missing.
   */
  function Gather(tokens: seq<string>, ps: seq<Option<int>>): (r: Result<seq<int>, Error>)
    requires |ps| == |tokens|
    ensures r.Ok? ==> |r.value| == |tokens|
  {
    if tokens == [] then Ok([])
    else match ps[0]
      case None => Err(NotAnInteger(tokens[0]))
      case Some(v) =>
        var rest := Gather(tokens[1..], ps[1..]);
        if rest.Err? then rest else Ok([v] + rest.value)
  }

  /** `list(map(int, tokens))`: every token as an integer, or the first token `int()` rejects. */
  function ParseAll(tokens: seq<string>): (r: Result<seq<int>, Error>)
    ensures r.Ok? ==> |r.value| == |tokens|
  {
    Gather(tokens, Parsed(tokens))
  }

  /** The walk succeeds exactly when every result is present, and then lists them in order. */
  lemma {:induction false} GatherMeaning(tokens: seq<string>, ps: seq<Option<int>>)
    requires |ps| == |tokens|
    ensures Gather(tokens, ps).Ok? <==> forall i :: 0 <= i < |ps| ==> ps[i].Some?
    ensures Gather(tokens, ps).Ok? ==> forall i :: 0 <= i < |ps| ==> ps[i] == Some(Gather(tokens, ps).value[i])
  {
    if tokens != [] {
      GatherMeaning(tokens[1..], ps[1..]);
      assert forall i :: 0 < i < |ps| ==> ps[i] == ps[1..][i - 1];
      var r := Gather(tokens, ps);
      if r.Ok? {
        var rest := Gather(tokens[1..], ps[1..]);
        assert r.value == [ps[0].value] + rest.value;
        forall i | 0 <= i < |ps| ensures ps[i] == Some(r.value[i]) {
          if i > 0 { assert r.value[i] == rest.value[i - 1]; }
        }
      }
    }
  }

  /** A failed walk reports the first token whose result is missing. */
  lemma {:induction false} GatherFirstError(tokens: seq<string>, ps: seq<Option<int>>)
    requires |ps| == |tokens|
    ensures Gather(tokens, ps).Err? ==> exists i :: && 0 <= i < |ps|
                                                   && Gather(tokens, ps).error == NotAnInteger(tokens[i])
                                                   && ps[i].None?
                                                   && forall j :: 0 <= j < i ==> ps[j].Some?
  {
    if tokens != [] && Gather(tokens, ps).Err? && ps[0].Some? {
      var tail, rest := tokens[1..], ps[1..];
      GatherFirstError(tail, rest);
      var k :| && 0 <= k < |rest| && Gather(tail, rest).error == NotAnInteger(tail[k])
               && rest[k].None? && forall j :: 0 <= j < k ==> rest[j].Some?;
      assert tokens[k + 1] == tail[k] && ps[k + 1] == rest[k];
      forall j | 0 < j < k + 1 ensures ps[j].Some? {
        assert ps[j] == rest[j - 1];
      }
    }
  }

  /**
   * The conversion succeeds exactly when `int()` accepts every token, and
   * then yields each token's value at its position; otherwise it reports
   * the first token `int()` rejects.
   */
  lemma ParseAllMeaning(tokens: seq<string>)
    ensures ParseAll(tokens).Ok? <==> forall i :: 0 <= i < |tokens| ==> ParseInt(tokens[i]).Some?
    ensures ParseAll(tokens).Ok? ==> forall i :: 0 <= i < |tokens| ==> ParseInt(tokens[i]) == Some(ParseAll(tokens).value[i])
    ensures ParseAll(tokens).Err? ==> exists i :: && 0 <= i < |tokens|
                                                 && ParseAll(tokens).error == NotAnInteger(tokens[i])
                                                 && ParseInt(tokens[i]).None?
                                                 && forall j :: 0 <= j < i ==> ParseInt(tokens[j]).Some?
  {
    var ps := Parsed(tokens);
    assert ParseAll(tokens) == Gather(tokens, ps);
    GatherMeaning(tokens, ps);
    GatherFirstError(tokens, ps);
  }

  /** The explicit off days of one worker record: its `personal` field split on commas. */
  function PersonalDays(worker: Record): Result<seq<int>, Error>
  {
    if worker.personal.Some? then ParseAll(Split(worker.personal.value, ',')) else Ok([])
  }

  /** The off-day lists of the worker records, once every one of them parses. */
  function OffDaysOf(data: seq<Record>): (r: seq<seq<int>>)
    ensures |r| == |Middle(data)|
  {
    seq(|Middle(data)|, i requires 0 <= i < |Middle(data)| =>
      var p := PersonalDays(Middle(data)[i]); if p.Ok? then p.value else [])
  }

  /**
   * One list of explicit off days per worker record, in record order, or the
   * error of the first record whose field does not parse.
   */
  method ExtractOffDays(data: seq<Record>) returns (r: Result<seq<seq<int>>, Error>)
    ensures r.Ok? <==> forall i :: 0 <= i < |Middle(data)| ==> PersonalDays(Middle(data)[i]).Ok?
    ensures r.Ok? ==> r.value == OffDaysOf(data)
    ensures r.Ok? ==> |r.value| == |Middle(data)|
    ensures r.Ok? ==> forall i :: 0 <= i < |Middle(data)| ==> PersonalDays(Middle(data)[i]) == Ok(r.value[i])
    ensures r.Ok? ==> forall i :: 0 <= i < |Middle(data)| && Middle(data)[i].personal.None? ==> r.value[i] == []
    ensures r.Err? ==> exists i :: && 0 <= i < |Middle(data)|
                                   && PersonalDays(Middle(data)[i]) == Err(r.error)
                                   && forall j :: 0 <= j < i ==> PersonalDays(Middle(data)[j]).Ok?
  {
    var workers := Middle(data);
    var offDays: seq<seq<int>> := [];
    for k := 0 to |workers|
      invariant |offDays| == k
      invariant forall i :: 0 <= i < k ==> PersonalDays(workers[i]) == Ok(offDays[i])
    {
      var personal := PersonalDays(workers[k]);
      if personal.Err? {
        return Err(personal.error);
      }
      offDays := offDays + [personal.value];
    }
    return Ok(offDays);
  }

  /** The decimal numerals of `ds`, one per day. */
  function NumeralsOf(ds: seq<nat>): (parts: seq<string>)
    ensures |parts| == |ds|
  {
    seq(|ds|, i requires 0 <= i < |ds| => NatToString(ds[i]))
  }

  /** The numerals of `ds` joined by commas, as a `personal` field lists off days. */
  function DayListText(ds: seq<nat>): string
    requires |ds| >= 1
  {
    Join(NumeralsOf(ds), ',')
  }

  /** Each numeral is free of commas and `int()` reads it back as its day. */
  lemma NumeralsOfParse(ds: seq<nat>)
    ensures forall i :: 0 <= i < |ds| ==> ',' !in NumeralsOf(ds)[i]
    ensures ParseAll(NumeralsOf(ds)) == Ok(ds)
  {
    var parts := NumeralsOf(ds);
    var ps := Parsed(parts);
    forall i | 0 <= i < |ds|
      ensures ps[i] == Some(ds[i])
    {
      ParseNumeral(ds[i]);
    }
    assert ParseAll(parts) == Gather(parts, ps);
    GatherMeaning(parts, ps);
    assert ParseAll(parts).value == ds;
  }

  /** A `personal` field that lists days as comma-separated numerals reads back as those days. */
  lemma PersonalDaysRoundTrip(worker: Record, ds: seq<nat>)
    requires |ds| >= 1
    requires worker.personal == Some(DayListText(ds))
    ensures PersonalDays(worker) == Ok(ds)
  {
    NumeralsOfParse(ds);
    JoinSplit(NumeralsOf(ds), ',');
  }

  /**
   * A `personal` field holding an empty (or blank) piece, the empty field
   * `""` included, makes the extraction fail instead of yielding no days.
   */
  lemma PersonalDaysBlankPieceFails(worker: Record, i: nat)
    requires worker.personal.Some?
    requires i < |Split(worker.personal.value, ',')|
    requires AllSpace(Split(worker.personal.value, ',')[i])
    ensures PersonalDays(worker).Err?
  {
    ParseIntBlank(Split(worker.personal.value, ',')[i]);
    ParseAllMeaning(Split(worker.personal.value, ','));
  }

  /** `[worker['days'] for worker in records if 'days' in worker]`. */
  function DaysOf(workers: seq<Record>): (r: seq<int>)
    ensures |r| <= |workers|
  {
    if workers == [] then []
    else (if workers[0].days.Some? then [workers[0].days.value] else []) + DaysOf(workers[1..])
  }

  /** Every target is the `days` field of some record. */
  lemma {:induction false} DaysOfFromRecords(workers: seq<Record>)
    ensures forall k :: 0 <= k < |DaysOf(workers)| ==>
              exists i :: 0 <= i < |workers| && workers[i].days == Some(DaysOf(workers)[k])
  {
    if workers != [] {
      var tail := workers[1..];
      DaysOfFromRecords(tail);
      var rest := DaysOf(tail);
      var head := if workers[0].days.Some? then [workers[0].days.value] else [];
      var r := DaysOf(workers);
      assert r == head + rest;
      forall k | 0 <= k < |r|
        ensures exists i :: 0 <= i < |workers| && workers[i].days == Some(r[k])
      {
        if k < |head| {
          assert workers[0].days == Some(r[k]);
        } else {
          assert r[k] == rest[k - |head|];
          var i :| 0 <= i < |tail| && tail[i].days == Some(rest[k - |head|]);
          assert workers[i + 1] == tail[i];
        }
      }
    } else {
      assert DaysOf(workers) == [];
    }
  }

  /** No record has a `days` field: there are no targets. */
  lemma {:induction false} DaysOfNone(workers: seq<Record>)
    requires forall i :: 0 <= i < |workers| ==> workers[i].days.None?
    ensures DaysOf(workers) == []
  {
    if workers != [] {
      assert forall i :: 0 <= i < |workers| - 1 ==> workers[1..][i] == workers[i + 1];
      DaysOfNone(workers[1..]);
    }
  }

  /** Every record has a `days` field: the i-th target is the i-th record's. */
  lemma {:induction false} DaysOfAll(workers: seq<Record>)
    requires forall i :: 0 <= i < |workers| ==> workers[i].days.Some?
    ensures |DaysOf(workers)| == |workers|
    ensures forall i :: 0 <= i < |workers| ==> DaysOf(workers)[i] == workers[i].days.value
  {
    if workers != [] {
      var tail := workers[1..];
      assert forall i :: 0 <= i < |tail| ==> tail[i] == workers[i + 1];
      DaysOfAll(tail);
      var r := DaysOf(workers);
      assert r == [workers[0].days.value] + DaysOf(tail);
      forall i | 0 < i < |workers| ensures r[i] == workers[i].days.value {
        assert r[i] == DaysOf(tail)[i - 1];
      }
    }
  }

  /** Targets of two runs of records, one after the other, are the two lists of targets in order. */
  lemma {:induction false} DaysOfAppend(a: seq<Record>, b: seq<Record>)
    ensures DaysOf(a + b) == DaysOf(a) + DaysOf(b)
  {
    if a == [] {
      assert a + b == b;
    } else {
      var head := if a[0].days.Some? then [a[0].days.value] else [];
      ConsAppend(a, b);
      assert DaysOf(a + b) == head + DaysOf(a[1..] + b);
      assert DaysOf(a) == head + DaysOf(a[1..]);
      DaysOfAppend(a[1..], b);
      AppendAssoc(head, DaysOf(a[1..]), DaysOf(b));
    }
  }

  /**
   * The target of a record with a `days` field sits at the position given by
   * the number of earlier records that have one, not at the record's own
   * position; a record without the field adds nothing.
   */
  lemma DaysOfPosition(workers: seq<Record>, i: int)
    requires 0 <= i < |workers|
    ensures var before := DaysOf(workers[..i]);
            && |DaysOf(workers[..i + 1])| == |before| + (if workers[i].days.Some? then 1 else 0)
            && (workers[i].days.Some? ==> |before| < |DaysOf(workers)| && DaysOf(workers)[|before|] == workers[i].days.value)
  {
    var rest := workers[i + 1..];
    assert workers[..i + 1] == workers[..i] + [workers[i]];
    assert workers == workers[..i + 1] + rest;
    DaysOfAppend(workers[..i], [workers[i]]);
    DaysOfAppend(workers[..i + 1], rest);
    assert DaysOf([workers[i]]) == (if workers[i].days.Some? then [workers[i].days.value] else []) + DaysOf([]);
  }

  /** The workers' days-off targets. */
  function ExtractDictDays(data: seq<Record>): seq<int>
  {
    DaysOf(Middle(data))
  }

  /** `[worker['name'] for worker in records if 'name' in worker]`: the row labels. */
  function NamesOf(workers: seq<Record>): (r: seq<string>)
    ensures |r| <= |workers|
    ensures (forall i :: 0 <= i < |workers| ==> workers[i].name.Some?) ==>
              |r| == |workers| && forall i :: 0 <= i < |workers| ==> r[i] == workers[i].name.value
  {
    if workers == [] then []
    else (if workers[0].name.Some? then [workers[0].name.value] else []) + NamesOf(workers[1..])
  }

  /** Labels of two runs of records, one after the other, are the two lists of labels in order. */
  lemma {:induction false} NamesOfAppend(a: seq<Record>, b: seq<Record>)
    ensures NamesOf(a + b) == NamesOf(a) + NamesOf(b)
  {
    if a == [] {
      assert a + b == b;
    } else {
      var head := if a[0].name.Some? then [a[0].name.value] else [];
      ConsAppend(a, b);
      assert NamesOf(a + b) == head + NamesOf(a[1..] + b);
      assert NamesOf(a) == head + NamesOf(a[1..]);
      NamesOfAppend(a[1..], b);
      AppendAssoc(head, NamesOf(a[1..]), NamesOf(b));
    }
  }

  /**
   * The label of a record with a `name` sits at the position given by the
   * number of earlier records that have one; a record without the field
   * adds no row.
   */
  lemma NamesOfPosition(workers: seq<Record>, i: int)
    requires 0 <= i < |workers|
    ensures var before := NamesOf(workers[..i]);
            && |NamesOf(workers[..i + 1])| == |before| + (if workers[i].name.Some? then 1 else 0)
            && (workers[i].name.Some? ==> |before| < |NamesOf(workers)| && NamesOf(workers)[|before|] == workers[i].name.value)
  {
    var rest := workers[i + 1..];
    assert workers[..i + 1] == workers[..i] + [workers[i]];
    assert workers == workers[..i + 1] + rest;
    NamesOfAppend(workers[..i], [workers[i]]);
    NamesOfAppend(workers[..i + 1], rest);
    assert NamesOf([workers[i]]) == (if workers[i].name.Some? then [workers[i].name.value] else []) + NamesOf([]);
  }

  /** `dict(zip(keys, values))`: pairs keys with values by position, stopping at the shorter list. */
  function ZipToMap(keys: seq<string>, values: seq<int>): (m: map<string, int>)
    ensures |m| <= Min(|keys|, |values|)
    decreases |keys|
  {
    var n := Min(|keys|, |values|);
    if n == 0 then map[]
    else ZipToMap(keys[..n - 1], values[..n - 1])[keys[n - 1] := values[n - 1]]
  }

  /** The keys of the dictionary are the keys that found a value. */
  lemma {:induction false} ZipKeys(keys: seq<string>, values: seq<int>)
    ensures forall k :: k in ZipToMap(keys, values) <==> k in keys[..Min(|keys|, |values|)]
    decreases |keys|
  {
    var n := Min(|keys|, |values|);
    if n > 0 {
      var ks, vs := keys[..n - 1], values[..n - 1];
      ZipKeys(ks, vs);
      assert Min(|ks|, |vs|) == n - 1 && ks[..n - 1] == ks;
      var m := ZipToMap(keys, values);
      assert m == ZipToMap(ks, vs)[keys[n - 1] := values[n - 1]];
      assert keys[..n] == ks + [keys[n - 1]];
      forall k
        ensures k in m <==> k in keys[..n]
      {
        assert k in keys[..n] <==> k in ks || k == keys[n - 1];
      }
    }
  }

  /** With distinct keys, each key that found a value maps to the value at its position. */
  lemma {:induction false} ZipValues(keys: seq<string>, values: seq<int>)
    requires Distinct(keys)
    ensures forall i :: 0 <= i < Min(|keys|, |values|) ==>
              keys[i] in ZipToMap(keys, values) && ZipToMap(keys, values)[keys[i]] == values[i]
    decreases |keys|
  {
    var n := Min(|keys|, |values|);
    if n > 0 {
      var ks, vs := keys[..n - 1], values[..n - 1];
      assert Distinct(ks);
      ZipValues(ks, vs);
      assert Min(|ks|, |vs|) == n - 1;
      var m := ZipToMap(keys, values);
      assert m == ZipToMap(ks, vs)[keys[n - 1] := values[n - 1]];
      forall i | 0 <= i < n - 1
        ensures keys[i] in m && m[keys[i]] == values[i]
      {
        assert keys[i] == ks[i] != keys[n - 1];
      }
    }
  }

  /**
   * The weekly staffing plan: the last record's counts keyed by weekday
   * name, Monday first, or the error the lookup `data[-1]['week']` raises.
   */
  function ExtractWeeklyPlan(data: seq<Record>): (r: Result<map<string, int>, Error>)
    ensures |data| == 0 ==> r == Err(IndexOutOfRange)
    ensures |data| > 0 && data[|data| - 1].week.None? ==> r == Err(MissingKey("week"))
    ensures r.Ok? ==> |data| > 0 && data[|data| - 1].week.Some?
    ensures r.Ok? ==> var values := data[|data| - 1].week.value;
      && (forall k :: k in r.value <==> k in Weekdays[..Min(7, |values|)])
      && forall i :: 0 <= i < Min(7, |values|) ==> r.value[Weekdays[i]] == values[i]
  {
    if |data| == 0 then Err(IndexOutOfRange)
    else match data[|data| - 1].week
      case None => Err(MissingKey("week"))
      case Some(values) =>
        assert Distinct(Weekdays);
        ZipKeys(Weekdays, values);
        ZipValues(Weekdays, values);
        Ok(ZipToMap(Weekdays, values))
  }

  /**
   * A plan built from at least seven counts has every weekday as a key, and
   * the count for day offset `day` is the value at that day's weekday position.
   */
  lemma WeeklyPlanCoversWeek(data: seq<Record>, start: int, day: int)
    requires ExtractWeeklyPlan(data).Ok?
    requires |data[|data| - 1].week.value| >= 7
    ensures WeekdayKey(start, day) in ExtractWeeklyPlan(data).value
    ensures ExtractWeeklyPlan(data).value[WeekdayKey(start, day)]
            == data[|data| - 1].week.value[(day + start) % 7]
  {
  }

  /**
   * The metadata row appended under the grid: author and organisation in the
   * first two columns, blanks in the rest, exactly as wide as the grid.
   */
  function CreatorRow(data: seq<Record>, columns: int): (r: Result<seq<string>, Error>)
    ensures |data| == 0 ==> r == Err(IndexOutOfRange)
    ensures |data| > 0 && data[0].creator.None? ==> r == Err(MissingKey("creator"))
    ensures |data| > 0 && data[0].creator.Some? && data[0].firmName.None? ==> r == Err(MissingKey("firm_name"))
    ensures r.Ok? <==> |data| > 0 && data[0].creator.Some? && data[0].firmName.Some? && columns >= 2
    ensures r.Ok? ==> && |r.value| == columns
                      && r.value[0] == "Creator: " + data[0].creator.value
                      && r.value[1] == "Company: " + data[0].firmName.value
                      && forall k :: 2 <= k < columns ==> r.value[k] == ""
  {
    if |data| == 0 then Err(IndexOutOfRange)
    else match (data[0].creator, data[0].firmName)
      case (None, _) => Err(MissingKey("creator"))
      case (_, None) => Err(MissingKey("firm_name"))
      case (Some(creator), Some(firm)) =>
        var cells := ["Creator: " + creator, "Company: " + firm] + seq(Max(columns - 2, 0), _ => "");
        if |cells| != columns then Err(LengthMismatch) else Ok(cells)
  }
}
