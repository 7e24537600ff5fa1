# Roster generator core, modelled in Dafny

The roster generator turns a list of input records into a monthly work
schedule. The first record holds the schedule's author and company. Each
middle record describes one worker: a name, a target number of days off,
and optionally a comma-separated list of days the worker is unavailable.
The last record holds the weekly plan: how many workers each weekday needs.

The schedule is a frame with one row per worker and one column per day of
next month. Each column is labelled `[<day>|<weekday>]`. A cell holds one of:

- nothing yet;
- `"X"` for a working day;
- `""` for a day off;
- `"?"` for a cell of a short-staffed day.

`process_data` builds the frame and then runs three phases:

- **Phase A** (`look_column`, first loop). This is a greedy allocation, day by day.
  - Every worker who asked for the day gets it off.
  - Every worker who worked each of the five previous days must rest.
  - The first `required` of the day's shuffled remaining workers are put on.
  - The others are given the day off.
- **Phase B** (`look_column`, second loop). This balances the days off, worker by worker.
  - A worker with fewer days off than the target has randomly chosen working days turned into days off.
  - A worker with more days off than the target has randomly chosen days off turned into working days.
- **Phase C** (`validate_schedule_with_question_marks`). A day with fewer
  workers on than its weekday requires gets `"?"` in every cell that is not a working mark.

Finally the creator row `Data` is appended under the workers' rows.

The model has four layers:

- `Sequences` and `Numerals` are helpers.
  - `Sequences` has counting, filtering and permutations.
  - `Numerals` has Python's `int()` on strings, and `str.split`.
- `WeekConfig`, `Calendar` and `Records` model the configuration, the calendar
  context and the builder that reads the records.
- `Schedule`, `Allocation`, `Balancing` and `Validation` state the phases as
  pure functions on grid values, together with the lemmas about them.
- `Phases` and `Process` are the phases as the source runs them.
  - Loops write the marks into a two-dimensional array in place.
  - Each phase method (`Phases.AllocateDayInPlace`, `Phases.AllocateDaysInPlace`,
    `Phases.BalanceRowInPlace`, `Phases.BalanceDaysOff`, `Phases.ValidateSchedule`)
    is proved to leave the array holding exactly what the matching pure function
    computes. The step methods they call state their new state cell by cell.

Randomness is an input of the model:

- The list of worker indices that `random.shuffle` permutes on day `d` is
  `perms[d]`, a permutation of the workers.
- Each list of days that Phase B shuffles for worker `w` is ordered by
  `orders[w]`, a permutation of the days. Every ordering of a list arises from
  some permutation this way.

Three behaviours of the code that a reader may not expect are kept as written:

- A weekday whose requirement is `0` leaves its eligible workers' cells
  unwritten (NaN), rather than giving them the day off.
- An empty `personal` field makes `int('')` raise, rather than meaning "no off days".
- Phase B may turn an explicitly requested day off into a working day. The
  balancing does not look at where an `""` came from. `Balancing.BalanceRowFlipsOnly`
  states exactly which cells it may flip.

## Model

| member | source | states |
|---|---|---|
| WeekConfig.WeekdayKey | mysite/config.py:5-13 | The weekday of day offset `day` in a month starting on weekday `start` is always one of the seven configured names |
| Calendar.NextMonth | mysite/processor.py:232-236 | The schedule month is the month after the given one: month number in 1..12, exactly one month later in year·12+month terms, with December rolling over to January of the next year |
| Calendar.Label | mysite/processor.py:126 | The label of one day: its 1-based number and weekday name between brackets, separated by a bar. It has no contract of its own; `Calendar.LabelParses` states what it encodes |
| Calendar.CalendarLabels | mysite/processor.py:124-130 | There is one label per day of the month |
| Calendar.LabelParses | mysite/processor.py:126 | Reading a day's label back yields its 1-based day number and its weekday name |
| Calendar.ParseBracketed | mysite/processor.py:126 | A bracketed label whose number part has no bar and parses to `n` reads back as `n` with the name after the bar |
| Calendar.LabelRoundTrip | mysite/processor.py:125-129 | Label `i` of the month reads back as day `i + 1` and the weekday the phases look the staffing requirement up under |
| Calendar.LabelsRepeatWeekly | mysite/processor.py:126 | Labels seven days apart carry the same weekday, and their day numbers differ by seven |
| Calendar.LabelsDistinct | mysite/processor.py:125-129 | No two columns of the month share a label |
| Numerals.ParseInt | mysite/processor.py:148 | Python's `int()` on a string: surrounding whitespace is trimmed, then an optional sign and decimal digit groups joined by single underscores. Anything else is no value. It has no contract of its own; its behaviour is stated by `Numerals.ParseNumeral`, `Numerals.ParseIntNumeral` and `Numerals.ParseIntBlank` |
| Numerals.NatToString | mysite/processor.py:126 | The decimal numeral of a day number is non-empty and made of digits only |
| Numerals.ParseNumeral | mysite/processor.py:148 | `int()` reads a decimal numeral back to its value |
| Numerals.ParseIntNumeral | mysite/processor.py:148 | `int()` reads a numeral surrounded by whitespace back to its value |
| Numerals.ParseIntBlank | mysite/processor.py:148 | `int()` rejects an empty or all-whitespace token |
| Numerals.Split | mysite/processor.py:148 | `split(',')` yields at least one piece, and no piece contains the separator |
| Numerals.SplitJoin | mysite/processor.py:148 | Joining the pieces of a split with the separator gives back the original string |
| Numerals.JoinSplit | mysite/processor.py:148 | Splitting a join of separator-free pieces gives back the pieces |
| Records.Middle | mysite/processor.py:146 | `data[1:-1]` holds every record but the first and the last, in order, and is empty for fewer than two records |
| Records.ParseAll | mysite/processor.py:147-148 | A successful parse yields one value per token. `Records.ParseAllMeaning` states which values |
| Records.GatherMeaning | mysite/processor.py:147-149 | Collecting parsed tokens succeeds exactly when every token parsed, and then yields their values in order |
| Records.GatherFirstError | mysite/processor.py:147-149 | A failed collection reports the first token that does not parse |
| Records.ParseAllMeaning | mysite/processor.py:147-149 | Parsing a token list succeeds iff `int()` accepts every token, and then yields exactly their values. Otherwise it fails with the first rejected token's error |
| Records.NumeralsOfParse | mysite/processor.py:147-149 | The numerals of a list of days contain no comma and parse back to that list |
| Records.PersonalDaysRoundTrip | mysite/processor.py:147-149 | A `personal` field written as comma-separated numerals yields exactly those days |
| Records.PersonalDaysBlankPieceFails | mysite/processor.py:147-149 | A `personal` field with an empty or blank piece makes the extraction fail |
| Records.PersonalDays | mysite/processor.py:147-149 | One worker's explicit off days: its `personal` field split on commas and parsed token by token, or no days when the field is absent. It has no contract of its own; `Records.PersonalDaysRoundTrip` and `Records.PersonalDaysBlankPieceFails` state its behaviour |
| Records.ExtractOffDays | mysite/processor.py:145-151 | The result holds one off-day list per worker record, in record order. A record without `personal` gets an empty list. Otherwise the error is that of the first record whose field does not parse, and extraction succeeds iff every field parses |
| Records.OffDaysOf | mysite/processor.py:145-151 | There is one off-day list per worker record |
| Records.DaysOf | mysite/processor.py:166 | There are never more days-off targets than records. What the list holds is stated by the lemmas below |
| Records.DaysOfFromRecords | mysite/processor.py:166 | Every days-off target in the list comes from some worker record's `days` field |
| Records.DaysOfNone | mysite/processor.py:166 | When no record has `days`, there are no targets |
| Records.DaysOfAll | mysite/processor.py:166 | When every record has `days`, the targets are exactly those values, in order |
| Records.DaysOfAppend | mysite/processor.py:166 | The targets of two runs of records, one after the other, are the targets of the first run followed by those of the second |
| Records.DaysOfPosition | mysite/processor.py:166 | A record without `days` adds no target. A record with `days` has its target at the position given by the number of earlier records with `days`, not at its own position. Together with `Records.NamesOfPosition` for the rows built at `mysite/processor.py:242`: a record lacking both `name` and `days` drops out of both lists and keeps later rows aligned, so `dict_days[worker_index]` stops belonging to worker row `worker_index` only after a record that has exactly one of the two fields |
| Records.ExtractDictDays | mysite/processor.py:166 | The targets of the worker records, `data[1:-1]`. It has no contract of its own; `Records.DaysOfPosition` states which targets survive and where |
| Records.NamesOf | mysite/processor.py:242 | There are never more row labels than records. When every record has a name, the labels are the names in record order |
| Records.NamesOfAppend | mysite/processor.py:242 | The row labels of two runs of records are the labels of the first run followed by those of the second |
| Records.NamesOfPosition | mysite/processor.py:242 | A record without `name` adds no row. A record with `name` gets the row at the position given by the number of earlier named records |
| Records.ZipToMap | mysite/processor.py:184 | `dict(zip(...))` has at most as many entries as the shorter list. Its keys and values are stated by `Records.ZipKeys` and `Records.ZipValues` |
| Records.ZipKeys | mysite/processor.py:184 | The keys of `dict(zip(keys, values))` are exactly the keys paired with a value, as far as the shorter list reaches |
| Records.ZipValues | mysite/processor.py:184 | With distinct keys, each paired key maps to the value at its own position |
| Records.ExtractWeeklyPlan | mysite/processor.py:181-184 | An empty record list fails with IndexError, and a last record without `week` fails with KeyError. Otherwise the plan's keys are the first `min(7, n)` weekday names, each mapped to the count at its position |
| Records.WeeklyPlanCoversWeek | mysite/processor.py:181-184 | A plan built from at least seven counts has every weekday, and day `d`'s requirement is the count at position `(d + start) % 7` |
| Records.CreatorRow | mysite/processor.py:253-261 | A missing first record, `creator` or `firm_name` fails, and the row is built iff all three exist and the frame has at least two columns. The row is exactly as wide as the frame: author, company, then blanks |
| Sequences.Count | mysite/processor.py:55 | `list.count(x)`: the number of occurrences is never more than the length. `Sequences.CountIsCard` states that it is the number of positions holding `x` |
| Sequences.Filter | mysite/processor.py:72-74 | A list comprehension with a condition keeps exactly the elements that satisfy it and is never longer than its source. `Sequences.FilterAppend` states that it keeps their order |
| Sequences.FilterAppend | mysite/processor.py:72-74 | Filtering two lists one after the other gives the filtered first list followed by the filtered second, so the comprehension keeps the order of its source |
| Sequences.IndicesOf | mysite/processor.py:67-69 | The comprehension over `range(n)` that collects the positions holding `x` yields exactly those positions |
| Sequences.Remove | mysite/processor.py:51-57 | `list.remove(x)` on a list holding `x` is one shorter and holds the same elements less one `x`. Its contract gives only the length and the multiset, not that the first occurrence goes; `Sequences.RemoveIsFilter` covers the lists without repetitions that the source passes |
| Sequences.RemoveIsFilter | mysite/processor.py:51-57 | On a list without repetitions, removing `x` is the same as filtering `x` out |
| Schedule.Blank | mysite/processor.py:244 | The fresh frame has the given shape, and every cell is unwritten |
| Schedule.Column | mysite/processor.py:208 | A day's column holds each worker's cell for that day |
| Allocation.FirstUncovered | mysite/processor.py:39-42 | It finds the first day whose weekday the plan lacks, the lookup that raises KeyError. It returns none exactly when the plan covers every day |
| Allocation.Required | mysite/processor.py:40-42 | The staffing requirement of day `d` is the plan's entry for the weekday of `d`. It has no contract of its own |
| Allocation.OffRequested | mysite/processor.py:48 | Worker `w` asked for day `d` off when `d + 1` is in its off-day list. It is false for `w >= |offDays|`, where Python raises IndexError; no caller reaches that case, because `Phases.MarkRequestedOff` requires an off-day list for every row and `Process.ProcessData` builds one list per record and at most one row per record. It has no contract of its own; `Allocation.Pool` states its use |
| Allocation.Window | mysite/processor.py:54 | The rest rule looks at the `min(d, 5)` days before day `d` |
| Allocation.Capped | mysite/processor.py:54-55 | A worker must rest when the window before the day holds five working marks. It has no contract of its own; `Allocation.CappedAfterFiveWorked` and `Allocation.FiveWorkedCapped` state what it means, one direction each |
| Allocation.CappedAfterFiveWorked | mysite/processor.py:54-55 | A capped worker worked each of the five days before the day, so nobody is capped in the month's first five days |
| Allocation.FiveWorkedCapped | mysite/processor.py:54-55 | A worker who worked each of the five days before the day is capped, so the rest rule fires |
| Allocation.Eligible | mysite/processor.py:47-57 | A worker stays in the day's list when it did not ask for the day off and is not capped. It has no contract of its own; `Allocation.Pool` and `Allocation.PoolSize` state its use |
| Allocation.Pool | mysite/processor.py:44-57 | A worker stays in the day's pool iff it is in the shuffled list, did not ask for the day off and is not capped |
| Allocation.Staffed | mysite/processor.py:60 | The day's staff is `min(required, pool size)` workers, all from the pool |
| Allocation.DayCell | mysite/processor.py:47-65 | A worker who asked for the day is off, and a working mark only goes to an eligible worker. On a day that needs staff every cell is written as working or off. On a day needing nobody, eligible cells keep their old value and all others are off |
| Allocation.AllocateDay | mysite/processor.py:44-77 | One day's pass rewrites only that day's column, with each worker's cell as `DayCell` decides |
| Allocation.AllocateDays | mysite/processor.py:39-77 | The day loop keeps the frame's shape |
| Allocation.AllocateDaysFrame | mysite/processor.py:39-77 | After `n` days, the columns from `n` on are untouched, and each earlier column is what that day's pass wrote |
| Allocation.AllocatedCell | mysite/processor.py:39-77 | A finished cell is the mark the day's pass gave it, judged on the frame as it stood when the loop reached that day |
| Allocation.AllocatedColumn | mysite/processor.py:39-77 | Later days never change an earlier day's column |
| Allocation.OffDaysHonoured | mysite/processor.py:47-51 | Phase A gives every worker each day it asked for off, and leaves it out of that day's pool |
| Allocation.NoSixConsecutiveWork | mysite/processor.py:53-57 | After Phase A, no worker works six days in a row |
| Allocation.RestAfterFiveDays | mysite/processor.py:53-57 | A row whose sixth day is only worked when the five before do not cap it has at least one non-working day in those six |
| Allocation.AllocateKeepsNoShort | mysite/processor.py:39-77 | Phase A writes only working marks and days off, so a frame without `"?"` stays without it |
| Allocation.DayStaffing | mysite/processor.py:59-65 | On a day that needs staff, a worker is on iff it is among the first `required` of the pool. The day has `min(required, pool size)` workers on |
| Allocation.StaffingCount | mysite/processor.py:59-65 | In the finished frame, a day that needs staff has `min(required, number of eligible workers)` workers on, and never more than required |
| Allocation.ZeroRequirementDay | mysite/processor.py:59-65 | On a day that needs nobody, eligible cells keep their blank-frame value and all others are off. No new working mark appears |
| Allocation.TopUpFindsNobody | mysite/processor.py:67-77 | When the day is still short after staffing, no pool worker is left off the day, so the top-up adds nobody |
| Allocation.PoolSize | mysite/processor.py:44-57 | The pool holds each eligible worker exactly once |
| Balancing.Shuffled | mysite/processor.py:92 | The shuffled list holds exactly the days of the original list |
| Balancing.FlipTo | mysite/processor.py:93-94 | The chosen days get the new mark, and every other cell keeps its mark |
| Balancing.FlipCount | mysite/processor.py:93-94 | Flipping distinct days all holding `from` moves exactly that many cells from `from` to `to` |
| Balancing.Flips | mysite/processor.py:86-104 | The days the balancing flips are days of the row that are working (when the row has too few days off) or off (when it has too many). When the row meets its target, nothing is flipped |
| Balancing.BalanceRow | mysite/processor.py:79-105 | Balancing one worker keeps the row's length. `Balancing.BalanceRaisesDaysOff`, `Balancing.BalanceLowersDaysOff` and `Balancing.BalanceRowFlipsOnly` state how its days off change |
| Balancing.BalanceAll | mysite/processor.py:79-105 | Each worker's row is balanced independently, towards that worker's own target |
| Balancing.BalanceRowFlipsOnly | mysite/processor.py:85-105 | Only working days become days off, and only when the row had too few. Only days off become working days, and only when it had too many. Unwritten and `"?"` cells never change |
| Balancing.BalanceKeepsNoShort | mysite/processor.py:79-105 | Phase B flips only between working and off, so a row without `"?"` keeps none |
| Balancing.BalanceAllKeepsNoShort | mysite/processor.py:79-105 | Balancing every row of a frame without `"?"` writes no `"?"` |
| Balancing.CandidatesCount | mysite/processor.py:87-92 | The shuffled candidate days are distinct, there are as many as the row has cells with that mark, and each carries the mark |
| Balancing.RaiseFlips | mysite/processor.py:85-94 | Raising the days off moves exactly one cell per flipped day from working to off |
| Balancing.RaiseLength | mysite/processor.py:85-94 | The number of days flipped up is `min(target - off, working days)` |
| Balancing.BalanceRaisesDaysOff | mysite/processor.py:85-94 | A row with too few days off ends with `min(target, off + working)` days off. The working days drop by the same amount |
| Balancing.RaisingMeetsTarget | mysite/processor.py:85-94 | A fully written row below its target, with the target at most the number of days, reaches the target exactly |
| Balancing.LowerFlips | mysite/processor.py:96-105 | Lowering the days off moves exactly one cell per flipped day from off to working |
| Balancing.LowerLength | mysite/processor.py:96-105 | The number of days flipped down is `min(off - target, off)` |
| Balancing.BalanceLowersDaysOff | mysite/processor.py:96-105 | A row with too many days off ends with `max(target, 0)` days off. The working days rise by the same amount |
| Balancing.BalanceMeetsTarget | mysite/processor.py:79-105 | A fully written row ends with exactly its target number of days off, for any target between 0 and the number of days |
| Validation.ShortDay | mysite/processor.py:208-210 | A day is short when fewer workers are on than its weekday requires. It has no contract of its own |
| Validation.FlaggedCell | mysite/processor.py:210-213 | A cell is working after flagging iff it was working before. Any changed cell is `"?"`, and only on a short day |
| Validation.Validate | mysite/processor.py:203-215 | Phase C keeps the frame's shape and flags each cell as `FlaggedCell` decides. Each day is judged on its own column of the input frame |
| Validation.ValidationKeepsWork | mysite/processor.py:208-213 | Phase C never adds or removes a working mark, so every day keeps its number of workers on |
| Validation.ValidatedDay | mysite/processor.py:210-213 | A sufficiently staffed day is unchanged. A short day keeps its working marks and has `"?"` everywhere else |
| Validation.EveryDayStaffedOrFlagged | mysite/processor.py:203-215 | Afterwards, every day either has its required workers on or shows only working marks and `"?"` |
| Validation.StaffedDayUnflagged | mysite/processor.py:208-213 | A day that has its required workers on after Phase C was never flagged: if it had no `"?"` before, it has none after |
| Validation.ValidationIdempotent | mysite/processor.py:203-215 | Running the flagging again on its own output changes nothing |
| Phases.UnmarkStep | mysite/processor.py:47-51 | One iteration of the off-day loop turns the list of workers still available into that list for the next worker |
| Phases.MarkRequestedOff | mysite/processor.py:47-51 | The loop marks `""` exactly for the workers who asked for the day, and leaves the shuffled list without them, in order. No other cell changes |
| Phases.CountRecentWork | mysite/processor.py:54-55 | The count of working marks in the window before the day reaches five iff the worker is capped |
| Phases.RestIfCapped | mysite/processor.py:54-56 | A capped worker's cell for the day becomes `""`, and nothing else changes |
| Phases.RestStep | mysite/processor.py:53-57 | One iteration of the rest loop keeps the walk's invariant: the list has lost exactly the capped visited workers, and only their cells changed |
| Phases.RestCapped | mysite/processor.py:53-57 | The rest loop marks every capped worker `""` on the day and removes them from the list, keeping the others in order. No other cell changes |
| Phases.StaffDay | mysite/processor.py:59-65 | The first `required` pool workers get `"X"`, the rest of the pool gets `""`, and no other cell changes |
| Phases.PoolStages | mysite/processor.py:44-57 | The list after the off-day loop is distinct and free of requested days off, and filtering it by the rest rule gives the pool |
| Phases.StaffDayInPlace | mysite/processor.py:44-64 | The explicit off days, the rest rule and the staffing leave the frame equal to `AllocateDay` of the frame they found, and the list left over is the day's pool, `Allocation.Pool` |
| Phases.AllocateDayInPlace | mysite/processor.py:40-77 | One iteration of the day loop leaves the frame equal to `AllocateDay` of the frame it found. Its top-up runs `Phases.TopUp`, and `Allocation.TopUpFindsNobody` shows that the top-up list is empty there |
| Phases.TopUpList | mysite/processor.py:67-77 | The workers the top-up adds are taken from the day's list and do not work that day yet. When at least the required number already work, nobody is added |
| Phases.TopUp | mysite/processor.py:67-77 | The recount and top-up give `"X"` on the day to exactly the workers of `Phases.TopUpList`, and nothing else changes; when that list is empty the frame is the one it found |
| Phases.MarkWorkers | mysite/processor.py:76-77 | The listed workers get the mark on the day, and nothing else changes |
| Phases.AllocateDaysInPlace | mysite/processor.py:39-77 | The whole day loop leaves the frame equal to `AllocateDays` over every day of the month |
| Phases.MarkDays | mysite/processor.py:93-94 | The listed days of the worker's row get the mark, and nothing else changes |
| Phases.BalanceRowInPlace | mysite/processor.py:80-105 | One iteration of the worker loop replaces that worker's row by its balanced row, and no other row changes |
| Phases.BalanceDaysOff | mysite/processor.py:79-105 | The worker loop leaves the frame equal to `BalanceAll` of the frame it found |
| Phases.LookColumn | mysite/processor.py:19-107 | `look_column` leaves the frame equal to the balancing of the allocated frame |
| Phases.FlagDay | mysite/processor.py:211-213 | Every non-working cell of the day becomes `"?"`, and nothing else changes |
| Phases.ValidateSchedule | mysite/processor.py:203-215 | Phase C in place leaves the frame equal to `Validate` of the frame it found |
| Process.WorkerNames | mysite/processor.py:242 | The row labels: the names of the worker records that have one. It has no contract of its own; `Records.NamesOfPosition` states which names and where |
| Process.Roster | mysite/processor.py:250-251 | The workers' rows keep the frame's shape, one row per named worker |
| Process.RosterStaffedOrFlagged | mysite/processor.py:250-251 | In the finished roster, a day either has its required workers on and shows no `"?"`, or shows `"?"` in every cell that is not a working mark |
| Process.ProcessData | mysite/processor.py:240-263 | The pipeline fails with the exception the source raises first, in the source's order. Otherwise it returns the month's labels, the workers' names plus `Data`, the rows the three phases produce and the creator row |

## Left out

- Writing the frame to CSV and Excel (`mysite/processor.py:265-270`) is out of scope. So are e-mail, the database, the web routes and `data_readable`, because they are I/O outside the scheduling core.
- `datetime.now()` and `calendar.monthrange` become parameters: the number of days in the month and the weekday of its first day. `Calendar.NextMonth` models only the month arithmetic around them.
- `random.shuffle` is replaced by the permutations `perms` and `orders`. The shuffle of the top-up list (`mysite/processor.py:75`) has no input, because that list is proved empty (`Allocation.TopUpFindsNobody`). `Phases.TopUpList` therefore takes the list in its unshuffled order.
- `eval` of the `week` field (`mysite/processor.py:182`) is out of scope. The field is modelled as the list of integers it evaluates to, and evaluating arbitrary Python text is not modelled.
- `Numerals.ParseInt` models `int()` on strings with ASCII whitespace, an optional sign and decimal digits with single underscores between them. Unicode digits and whitespace are not modelled, and neither is the limit on the number of digits (CPython 3.11 and later reject decimal strings of more than 4300 digits); the model accepts numerals of any length.
- Allocation.OffRequested: is false, where Python raises IndexError, for a worker index past the end of the off-day lists. No caller reaches that case: `Phases.MarkRequestedOff` requires a list for every row, and `Process.ProcessData` builds one list per record.
- Sequences.Remove: its contract states the length and the multiset of the result, not that the first occurrence is the one removed. The source only removes from lists without repetitions, where `Sequences.RemoveIsFilter` pins the result down exactly.
- Record fields have fixed types (`days` an integer, `personal` a string). A field of another type, which Python would reject at run time, is not modelled.
- pandas details beyond the cell values are not modelled: dtypes, label alignment, and duplicate row or column labels.
- Records.DaysOf: its own contract states only that the targets are never more than the records. What the list holds, in every mix of records with and without `days`, is stated by `Records.DaysOfAppend` and `Records.DaysOfPosition`. `Records.DaysOfFromRecords`, `Records.DaysOfNone` and `Records.DaysOfAll` add the special cases.
- Records.ZipToMap: its own contract states only a size bound. Its keys and values are stated by `Records.ZipKeys` and `Records.ZipValues`.
- Balancing.BalanceMeetsTarget: requires every cell of the row to be written, and the target to be between 0 and the number of days. Rows with unwritten cells (days needing nobody) or out-of-range targets are covered by `Balancing.BalanceRaisesDaysOff` and `Balancing.BalanceLowersDaysOff` instead.
- Allocation.NoSixConsecutiveWork: holds for the frame after Phase A. Phase B may turn days off back into working days, and the source does not re-check the rest rule after it.
