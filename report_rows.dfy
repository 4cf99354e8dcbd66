/** The rows every table-shaped serializer emits: the header row, a row per
    step definition, a row per shown step, and the "UNUSED" and "k more"
    marker rows. All of them have one cell per header. */
module ReportRows {
  import opened Wrappers
  import opened Strings
  import opened Decimals
  import opened Messages
  import opened UsageReport
  import opened Durations
  import opened StableSort
  import opened Tables

  const Headers: seq<string> := ["Expression/Text", "Duration", "Mean", "±", "Error", "Location"]

  /** Expression/Text, "±" and Location are left-aligned; the numbers are
      right-aligned. */
  const LeftAlign: seq<bool> := [true, false, false, true, false, true]

  /** The row of a step definition: its text and location, and the sum, mean
      and margin of error of its durations, or four empty cells when it has
      no statistics. */
  function DefinitionRow(expression: string, location: string, duration: Option<Statistics>): (r: seq<string>)
    ensures |r| == |Headers|
    ensures r[0] == expression && r[5] == location
    ensures duration.None? <==> r[3] == ""
    ensures duration.None? ==> r[1] == r[2] == r[4] == ""
  {
    match duration
    case None => [expression, "", "", "", "", location]
    case Some(s) => [expression, FormatDuration(s.sum), FormatDuration(s.mean), "±", FormatDuration(s.moe95), location]
  }

  /** With statistics, the row shows "±" and the sum, mean and margin of
      error each as its rounded millisecond count. */
  lemma DefinitionRowReadsBack(expression: string, location: string, s: Statistics)
    ensures var r := DefinitionRow(expression, location, Some(s));
      && r[3] == "±"
      && ShowsMillis(r[1], s.sum)
      && ShowsMillis(r[2], s.mean)
      && ShowsMillis(r[4], s.moe95)
  {
    var r := DefinitionRow(expression, location, Some(s));
    assert r[1] == FormatDuration(s.sum) && r[2] == FormatDuration(s.mean) && r[4] == FormatDuration(s.moe95);
    FormatDurationReadsBack(s.sum);
    FormatDurationReadsBack(s.mean);
    FormatDurationReadsBack(s.moe95);
  }

  /** The row of one step: its text indented by two spaces, its duration,
      and its location. */
  function StepRow(text: string, duration: Duration, location: string): (r: seq<string>)
    ensures |r| == |Headers|
    ensures r[0] == "  " + text && r[5] == location
    ensures r[2] == r[3] == r[4] == ""
  {
    ["  " + text, FormatDuration(duration), "", "", "", location]
  }

  /** A step row's duration cell shows the step's rounded millisecond count. */
  lemma StepRowReadsBack(text: string, duration: Duration, location: string)
    ensures ShowsMillis(StepRow(text, duration, location)[1], duration)
  {
    assert StepRow(text, duration, location)[1] == FormatDuration(duration);
    FormatDurationReadsBack(duration);
  }

  /** The marker row of a step definition no step used. */
  const UnusedRow: seq<string> := ["  UNUSED", "", "", "", "", ""]

  /** The marker row for `k` steps that were not shown. */
  function MoreRow(k: int): (r: seq<string>)
    ensures |r| == |Headers|
    ensures forall j :: 1 <= j < |r| ==> r[j] == ""
  {
    ["  " + IntToString(k) + " more", "", "", "", "", ""]
  }

  /** The "k more" cell is two spaces, a number that reads back as `k`, and
      " more". */
  lemma MoreRowReadsBack(k: int)
    ensures var c := MoreRow(k)[0];
      && |c| > 7 && c[..2] == "  " && c[|c| - 5..] == " more"
      && var t := c[2..|c| - 5];
        AllDigits(if t[0] == '-' then t[1..] else t) && ParseInt(t) == k
  {
    var c := MoreRow(k)[0];
    IntToStringRoundTrip(k);
    assert c[2..|c| - 5] == IntToString(k);
  }

  /** The sort key of a step: its duration. */
  function DurationRank(d: Duration): Rank
  {
    Rank(d.TotalNanos())
  }

  /** The sort key of a step definition: the mean of its statistics, below
      every mean when it has none (`nullsFirst`, then reversed). */
  function MeanRank(duration: Option<Statistics>): (k: Rank)
    ensures k.Lowest? <==> duration.None?
  {
    match duration
    case None => Lowest
    case Some(s) => Rank(s.mean.TotalNanos())
  }

  /** Java compares durations by seconds, then by nanoseconds; on valid
      durations this is the order of their total nanoseconds, which is the
      key the sort uses. */
  lemma {:induction false} DurationOrder(a: Duration, b: Duration)
    requires a.Valid() && b.Valid()
    ensures (a.seconds < b.seconds || (a.seconds == b.seconds && a.nanos <= b.nanos))
      <==> a.TotalNanos() <= b.TotalNanos()
  {
    if a.seconds < b.seconds {
      SecondsDominate(a.seconds, b.seconds);
    } else if a.seconds > b.seconds {
      SecondsDominate(b.seconds, a.seconds);
    }
  }

  lemma SecondsDominate(s: int, t: int)
    requires s < t
    ensures s * NanosPerSecond + NanosPerSecond <= t * NanosPerSecond
  {
  }

  /** In a descending sequence, everything after a `Lowest` key is `Lowest`
      too: definitions without statistics come after all the others. */
  lemma NullsLast<T>(s: seq<T>, key: T -> Rank, i: nat, j: nat)
    requires Descending(s, key)
    requires i < j < |s| && key(s[i]).Lowest?
    ensures key(s[j]).Lowest?
  {
    assert AtMost(key(s[j]), key(s[i]));
  }

  /** One row per element, in order. */
  function RowsFor<T>(xs: seq<T>, row: T -> seq<string>): (r: seq<seq<string>>)
    ensures |r| == |xs|
    ensures forall i :: 0 <= i < |xs| ==> r[i] == row(xs[i])
  {
    seq(|xs|, i requires 0 <= i < |xs| => row(xs[i]))
  }

  lemma RowsForSnoc<T>(xs: seq<T>, k: nat, row: T -> seq<string>)
    requires k < |xs|
    ensures RowsFor(xs[..k + 1], row) == RowsFor(xs[..k], row) + [row(xs[k])]
  {
  }

  /** The step rows of one step definition: the "UNUSED" marker when no step
      used it; otherwise the first `shown` steps in descending duration order,
      then a "k more" marker when `k > 0` steps are left over. */
  function StepSection<T>(steps: seq<T>, key: T -> Rank, row: T -> seq<string>, shown: nat): seq<seq<string>>
    requires shown <= |steps|
  {
    if |steps| == 0 then [UnusedRow]
    else
      RowsFor(Sort(steps, key)[..shown], row)
      + (if |steps| > shown then [MoreRow(|steps| - shown)] else [])
  }

  /** A used step section: the shown rows, then the "k more" row if any. */
  lemma StepSectionUsed<T>(steps: seq<T>, key: T -> Rank, row: T -> seq<string>, shown: nat)
    requires shown <= |steps| && |steps| > 0
    ensures StepSection(steps, key, row, shown) == RowsFor(Sort(steps, key)[..shown], row)
      + (if |steps| > shown then [MoreRow(|steps| - shown)] else [])
  {
  }

  /** The shape of a step section: one row per shown step, the "k more" row
      exactly when steps were left out, with `k` the number left out. */
  lemma StepSectionShape<T>(steps: seq<T>, key: T -> Rank, row: T -> seq<string>, shown: nat)
    requires shown <= |steps|
    ensures var section := StepSection(steps, key, row, shown);
      && (|steps| == 0 ==> section == [UnusedRow])
      && (|steps| > 0 ==> |section| == shown + (if |steps| > shown then 1 else 0))
      && (forall i :: 0 <= i < shown ==> section[i] == row(Sort(steps, key)[i]))
      && (|steps| > shown ==> section[|section| - 1] == MoreRow(|steps| - shown))
  {
    if |steps| > 0 {
      var shownRows := RowsFor(Sort(steps, key)[..shown], row);
      var section := StepSection(steps, key, row, shown);
      assert section[..shown] == shownRows;
    }
  }

  /** A step section of rows one cell per header wide is as wide itself. */
  lemma StepSectionWidth<T>(steps: seq<T>, key: T -> Rank, row: T -> seq<string>, shown: nat)
    requires shown <= |steps|
    requires forall x :: |row(x)| == |Headers|
    ensures Rectangular(StepSection(steps, key, row, shown), |Headers|)
  {
    if |steps| > 0 {
      var shownRows := RowsFor(Sort(steps, key)[..shown], row);
      var section := StepSection(steps, key, row, shown);
      assert section[..shown] == shownRows;
    }
  }

  /** The rows of one step definition: its own row `h`, then, when steps are
      included, its step section cut at `shown`. */
  function DefinitionRows<T>(h: seq<string>, steps: seq<T>, key: T -> Rank, row: T -> seq<string>, includeSteps: bool, shown: nat): seq<seq<string>>
    requires shown <= |steps|
  {
    [h] + if includeSteps then StepSection(steps, key, row, shown) else []
  }

  /** The definition's own row comes first; without steps it is alone;
      otherwise the "UNUSED" row, or a row per shown step in sorted order and
      one more row exactly when steps are left out. */
  lemma DefinitionRowsShape<T>(h: seq<string>, steps: seq<T>, key: T -> Rank, row: T -> seq<string>, includeSteps: bool, shown: nat)
    requires shown <= |steps|
    ensures var rows := DefinitionRows(h, steps, key, row, includeSteps, shown);
      && rows[0] == h
      && (!includeSteps ==> rows == [h])
      && (includeSteps && |steps| == 0 ==> rows == [h, UnusedRow])
      && (includeSteps && |steps| > 0 ==> |rows| == 1 + shown + (if |steps| > shown then 1 else 0))
      && (includeSteps ==> forall i :: 0 <= i < shown ==> rows[1 + i] == row(Sort(steps, key)[i]))
  {
    if includeSteps {
      StepSectionShape(steps, key, row, shown);
    } else {
      assert [h] + [] == [h];
    }
  }

  /** The row after the shown steps counts the `k = size - shown` steps left
      out. */
  lemma DefinitionRowsMore<T>(h: seq<string>, steps: seq<T>, key: T -> Rank, row: T -> seq<string>, includeSteps: bool, shown: nat)
    requires shown < |steps| && includeSteps
    ensures var rows := DefinitionRows(h, steps, key, row, includeSteps, shown);
      rows[|rows| - 1] == MoreRow(|steps| - shown)
  {
    StepSectionShape(steps, key, row, shown);
  }

  /** All rows of a definition have one cell per header. */
  lemma DefinitionRowsWidth<T>(h: seq<string>, steps: seq<T>, key: T -> Rank, row: T -> seq<string>, includeSteps: bool, shown: nat)
    requires shown <= |steps|
    requires |h| == |Headers| && forall x :: |row(x)| == |Headers|
    ensures Rectangular(DefinitionRows(h, steps, key, row, includeSteps, shown), |Headers|)
  {
    if includeSteps {
      StepSectionWidth(steps, key, row, shown);
    }
  }

  /** How many steps `limit(max)` lets through. */
  function Limit(max: nat, size: nat): (n: nat)
    ensures n <= size && n <= max
    ensures n == max || n == size
  {
    if max < size then max else size
  }

  /** A section cut by `limit(max)` shows `min(max, size)` step rows, then one
      more row exactly when the steps exceed `max`. */
  lemma LimitedRows<T>(h: seq<string>, steps: seq<T>, key: T -> Rank, row: T -> seq<string>, includeSteps: bool, max: nat)
    requires includeSteps && |steps| > 0
    ensures var rows := DefinitionRows(h, steps, key, row, includeSteps, Limit(max, |steps|));
      |rows| == 1 + Limit(max, |steps|) + (if |steps| > max then 1 else 0)
  {
    DefinitionRowsShape(h, steps, key, row, includeSteps, Limit(max, |steps|));
  }

  /** That extra row counts the `size - max` steps the limit left out. */
  lemma LimitedMoreRow<T>(h: seq<string>, steps: seq<T>, key: T -> Rank, row: T -> seq<string>, includeSteps: bool, max: nat)
    requires includeSteps && |steps| > max
    ensures var rows := DefinitionRows(h, steps, key, row, includeSteps, Limit(max, |steps|));
      rows[|rows| - 1] == MoreRow(|steps| - max)
  {
    DefinitionRowsMore(h, steps, key, row, includeSteps, Limit(max, |steps|));
  }

  /** A limit of 0 shows no step of a used definition, only the "size more"
      row. */
  lemma LimitZeroRows<T>(h: seq<string>, steps: seq<T>, key: T -> Rank, row: T -> seq<string>, includeSteps: bool)
    requires includeSteps && |steps| > 0
    ensures DefinitionRows(h, steps, key, row, includeSteps, Limit(0, |steps|)) == [h, MoreRow(|steps|)]
  {
    StepSectionUsed(steps, key, row, 0);
    assert RowsFor(Sort(steps, key)[..0], row) == [];
  }

  /** The steps shown are a longest `shown` of them: the sort only reorders
      the steps, and no step left out took longer than a step shown. */
  lemma ShownAreLongest<T>(steps: seq<T>, key: T -> Rank, shown: nat)
    requires shown <= |steps|
    ensures var sorted := Sort(steps, key);
      && multiset(sorted) == multiset(steps)
      && forall i, j :: 0 <= i < shown <= j < |sorted| ==> AtMost(key(sorted[j]), key(sorted[i]))
  {
    SortCorrect(steps, key);
  }

  /** The rows of each element in turn, one after the other. */
  function Flatten<T>(xs: seq<T>, rowsOf: T -> seq<seq<string>>): seq<seq<string>>
  {
    if |xs| == 0 then [] else Flatten(xs[..|xs| - 1], rowsOf) + rowsOf(xs[|xs| - 1])
  }

  /** Rows of the right width, concatenated, still have that width. */
  lemma {:induction false} FlattenRectangular<T>(xs: seq<T>, rowsOf: T -> seq<seq<string>>, width: nat)
    requires forall x :: Rectangular(rowsOf(x), width)
    ensures Rectangular(Flatten(xs, rowsOf), width)
  {
    if |xs| > 0 {
      FlattenRectangular(xs[..|xs| - 1], rowsOf, width);
    }
  }

  lemma FlattenSnoc<T>(xs: seq<T>, i: nat, rowsOf: T -> seq<seq<string>>)
    requires i < |xs|
    ensures Flatten(xs[..i + 1], rowsOf) == Flatten(xs[..i], rowsOf) + rowsOf(xs[i])
  {
    assert xs[..i + 1][..i] == xs[..i];
  }

  /** The sum of the elements' row counts. */
  function RowCount<T>(xs: seq<T>, rowsOf: T -> seq<seq<string>>): nat
  {
    if |xs| == 0 then 0 else RowCount(xs[..|xs| - 1], rowsOf) + |rowsOf(xs[|xs| - 1])|
  }

  /** The number of rows is the sum of each element's row count. */
  lemma {:induction false} FlattenCount<T>(xs: seq<T>, rowsOf: T -> seq<seq<string>>)
    ensures |Flatten(xs, rowsOf)| == RowCount(xs, rowsOf)
  {
    if |xs| > 0 {
      FlattenCount(xs[..|xs| - 1], rowsOf);
    }
  }

  /** When every element has the same number of rows, that number times the
      count of elements. */
  lemma {:induction false} FlattenLength<T>(xs: seq<T>, rowsOf: T -> seq<seq<string>>, each: nat)
    requires forall x :: |rowsOf(x)| == each
    ensures |Flatten(xs, rowsOf)| == |xs| * each
  {
    if |xs| > 0 {
      FlattenLength(xs[..|xs| - 1], rowsOf, each);
    }
  }
}
