/**
 * The weekday table of the configuration and the calendar context: the
 * month that follows a given one, and the column labels `[<day>|<weekday>]`.
 */
module WeekConfig {

  /** The weekday names, Monday first, spelled exactly as the configuration spells them. */
  const Weekdays: seq<string> := ["Mon", "Tue", "Wen", "Thu", "Fri", "Sut", "Sun"]

  /**
   * The weekday name of day offset `day` (0-based) in a month whose first
   * day falls on weekday `start` (0 = Monday). Python's `%` floors and
   * Dafny's is Euclidean; for the divisor 7 both give a result in [0, 7).
   */
  function WeekdayKey(start: int, day: int): (k: string)
    ensures k in Weekdays
  {
    Weekdays[(day + start) % 7]
  }
}

module Calendar {
  import opened Sequences
  import opened Numerals
  import opened WeekConfig

  /**
   * The (year, month) the schedule is made for: the month after the given
   * one, rolling over into January of the next year.
   */
  function NextMonth(year: int, month: int): (r: (int, int))
    ensures 1 <= month <= 12 ==> 1 <= r.1 <= 12 && 12 * r.0 + r.1 == 12 * year + month + 1
    ensures month == 12 ==> r == (year + 1, 1)
  {
    var m := if month < 12 then month + 1 else 1;
    (if m == 1 then year + 1 else year, m)
  }

  /** Label of the column for day offset `day`. */
  function Label(day: nat, start: int): string
  {
    "[" + NatToString(day + 1) + "|" + WeekdayKey(start, day) + "]"
  }

  /** One label per day of the month, in order. */
  function CalendarLabels(daysInMonth: nat, start: int): (labels: seq<string>)
    ensures |labels| == daysInMonth
  {
    seq(daysInMonth, i requires 0 <= i < daysInMonth => Label(i, start))
  }

  /** Reads a label back into its day number and weekday name. */
  function ParseLabel(s: string): Option<(int, string)>
  {
    if |s| >= 2 && s[0] == '[' && s[|s| - 1] == ']' then
      var inner := s[1..|s| - 1];
      if '|' in inner then
        var i := IndexOf(inner, '|');
        match ParseInt(inner[..i])
        case Some(n) => Some((n, inner[i + 1..]))
        case None => None
      else None
    else None
  }

  /**
   * Label `i` of the month names day `i + 1` and the weekday the scheduling
   * phases look the staffing requirement up under.
   */
  lemma LabelRoundTrip(daysInMonth: nat, start: int, i: nat)
    requires i < daysInMonth
    ensures ParseLabel(CalendarLabels(daysInMonth, start)[i]) == Some((i + 1, WeekdayKey(start, i)))
  {
    assert CalendarLabels(daysInMonth, start)[i] == Label(i, start);
    LabelParses(i, start);
  }

  /** The label of a day reads back as its day number and weekday name. */
  lemma LabelParses(day: nat, start: int)
    ensures ParseLabel(Label(day, start)) == Some((day + 1, WeekdayKey(start, day)))
  {
    var x := NatToString(day + 1);
    assert '|' !in x && ParseInt(x) == Some(day + 1) by { ParseNumeral(day + 1); }
    ParseBracketed(x, WeekdayKey(start, day), day + 1);
  }

  /** A bracketed `number|name` pair whose number part has no `|` reads back as that pair. */
  lemma ParseBracketed(x: string, name: string, n: int)
    requires '|' !in x && ParseInt(x) == Some(n)
    ensures ParseLabel("[" + x + "|" + name + "]") == Some((n, name))
  {
    var s := "[" + x + "|" + name + "]";
    var inner := x + "|" + name;
    assert s[1..|s| - 1] == inner;
    assert inner[..|x|] == x;
    IndexOfAt(inner, '|', |x|);
    assert inner[|x| + 1..] == name;
  }

  /** Labels seven days apart carry the same weekday name and day numbers seven apart. */
  lemma LabelsRepeatWeekly(daysInMonth: nat, start: int, i: nat)
    requires i + 7 < daysInMonth
    ensures var labels := CalendarLabels(daysInMonth, start);
      && ParseLabel(labels[i]).Some? && ParseLabel(labels[i + 7]).Some?
      && ParseLabel(labels[i + 7]).value.1 == ParseLabel(labels[i]).value.1
      && ParseLabel(labels[i + 7]).value.0 == ParseLabel(labels[i]).value.0 + 7
  {
    LabelRoundTrip(daysInMonth, start, i);
    LabelRoundTrip(daysInMonth, start, i + 7);
    assert (i + 7 + start) % 7 == (i + start) % 7;
  }

  /** No two days of the month share a label, so the column names are unique. */
  lemma LabelsDistinct(daysInMonth: nat, start: int)
    ensures Distinct(CalendarLabels(daysInMonth, start))
  {
    var labels := CalendarLabels(daysInMonth, start);
    forall i, j | 0 <= i < j < |labels|
      ensures labels[i] != labels[j]
    {
      LabelRoundTrip(daysInMonth, start, i);
      LabelRoundTrip(daysInMonth, start, j);
    }
  }
}
