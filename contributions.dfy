/** The contribution graph of both scripts: the yearly total and the grouping
    of the days into columns of seven, with the first column padded to the
    weekday of the first day in `js/script.js`. */
module Contributions {
  import opened Strings

  /** One entry of the `contributions` array of the API response. */
  datatype Day = Day(date: string, count: int, level: int)

  /** A cell of a padded week: `null` before the first day, or a day. */
  datatype Cell = Blank | Filled(day: Day)

  const WeekLength: nat := 7

  /** `s` cut into consecutive slices of seven, the last one possibly shorter. */
  function Chunks<T>(s: seq<T>): (r: seq<seq<T>>)
    ensures |s| == 0 <==> r == []
    ensures |s| > 0 ==> r[0] == s[..if |s| < WeekLength then |s| else WeekLength]
    decreases |s|
  {
    if |s| == 0 then []
    else if |s| <= WeekLength then [s]
    else [s[..WeekLength]] + Chunks(s[WeekLength..])
  }

  function Flatten<T>(weeks: seq<seq<T>>): seq<T> {
    if |weeks| == 0 then [] else weeks[0] + Flatten(weeks[1..])
  }

  /** The weeks hold the days in order and nothing else. */
  lemma {:induction false} FlattenChunks<T>(s: seq<T>)
    ensures Flatten(Chunks(s)) == s
    decreases |s|
  {
    if |s| > WeekLength {
      FlattenChunks(s[WeekLength..]);
      var c := Chunks(s);
      assert c[0] == s[..WeekLength] && c[1..] == Chunks(s[WeekLength..]);
      assert s == s[..WeekLength] + s[WeekLength..];
    } else if |s| > 0 {
      assert Flatten([s]) == s + Flatten([s][1..]);
      assert [s][1..] == [];
    }
  }

  /** Every week but the last has seven cells, the last has one to seven, and
      there are as many weeks as the cells need. */
  lemma {:induction false} ChunkSizes<T>(s: seq<T>)
    ensures |Chunks(s)| == (|s| + WeekLength - 1) / WeekLength
    ensures forall i :: 0 <= i < |Chunks(s)| ==> 1 <= |Chunks(s)[i]| <= WeekLength
    ensures forall i :: 0 <= i < |Chunks(s)| - 1 ==> |Chunks(s)[i]| == WeekLength
    decreases |s|
  {
    if |s| > WeekLength {
      ChunkSizes(s[WeekLength..]);
      var c := Chunks(s);
      assert c == [s[..WeekLength]] + Chunks(s[WeekLength..]);
      assert forall i :: 1 <= i < |c| ==> c[i] == Chunks(s[WeekLength..])[i - 1];
    }
  }

  /** Chunking a whole number of weeks followed by more days chunks each part. */
  lemma {:induction false} ChunksAppend<T>(a: seq<T>, b: seq<T>)
    requires |a| % WeekLength == 0
    ensures Chunks(a + b) == Chunks(a) + Chunks(b)
    decreases |a|
  {
    if |a| == 0 {
      assert a + b == b;
    } else {
      var ab := a + b;
      assert ab[..WeekLength] == a[..WeekLength];
      assert ab[WeekLength..] == a[WeekLength..] + b;
      ChunksAppend(a[WeekLength..], b);
      if |b| == 0 {
        assert ab == a;
        assert Chunks(b) == [];
      } else if |a| == WeekLength {
        assert a[WeekLength..] == [];
        assert a[..WeekLength] == a;
        assert Chunks(a) == [a];
      }
    }
  }

  /** The loop state of the grouping: `weeks` are the full weeks of `done`
      and `week` the days after them. */
  ghost predicate Grouped<T>(weeks: seq<seq<T>>, week: seq<T>, done: seq<T>) {
    var full := |done| - |week|;
    && |week| < WeekLength && full >= 0
    && full % WeekLength == 0
    && week == done[full..]
    && weeks == Chunks(done[..full])
  }

  /** One `week.push(day)` followed by the full-week test. */
  lemma GroupStep<T>(weeks: seq<seq<T>>, week: seq<T>, done: seq<T>, x: T)
    requires Grouped(weeks, week, done)
    ensures |week + [x]| == WeekLength ==> Grouped(weeks + [week + [x]], [], done + [x])
    ensures |week + [x]| < WeekLength ==> Grouped(weeks, week + [x], done + [x])
  {
    var full := |done| - |week|;
    var next := done + [x];
    assert next[..full] == done[..full];
    assert next[full..] == week + [x];
    if |week + [x]| == WeekLength {
      assert next[..|next|] == done[..full] + (week + [x]);
      ChunksAppend(done[..full], week + [x]);
    }
  }

  /** `if (week.length) weeks.push(week)` completes the grouping. */
  lemma GroupDone<T>(weeks: seq<seq<T>>, week: seq<T>, done: seq<T>)
    requires Grouped(weeks, week, done)
    ensures (if |week| > 0 then weeks + [week] else weeks) == Chunks(done)
  {
    var full := |done| - |week|;
    assert done == done[..full] + week;
    ChunksAppend(done[..full], week);
    if |week| == 0 {
      assert done[..full] == done;
    }
  }

  /** Grouping in `script.js`: the days, seven per week. */
  method GroupWeeks<T>(days: seq<T>) returns (weeks: seq<seq<T>>)
    ensures weeks == Chunks(days)
  {
    weeks := [];
    var week: seq<T> := [];
    var i := 0;
    while i < |days|
      invariant 0 <= i <= |days|
      invariant Grouped(weeks, week, days[..i])
    {
      GroupStep(weeks, week, days[..i], days[i]);
      assert days[..i + 1] == days[..i] + [days[i]];
      week := week + [days[i]];
      if |week| == WeekLength {
        weeks := weeks + [week];
        week := [];
      }
      i := i + 1;
    }
    assert days[..i] == days;
    GroupDone(weeks, week, days);
    if |week| > 0 {
      weeks := weeks + [week];
    }
  }

  function Blanks(n: nat): (r: seq<Cell>)
    ensures |r| == n && forall i :: 0 <= i < n ==> r[i] == Blank
  {
    if n == 0 then [] else Blanks(n - 1) + [Blank]
  }

  function Cells(days: seq<Day>): (r: seq<Cell>)
    ensures |r| == |days| && forall i :: 0 <= i < |days| ==> r[i] == Filled(days[i])
  {
    if |days| == 0 then [] else Cells(days[..|days| - 1]) + [Filled(days[|days| - 1])]
  }

  /** Grouping in `js/script.js`: `firstDay` blanks (the weekday of the first
      day, 0 for Sunday), then the days, seven cells per week. */
  method GroupPaddedWeeks(days: seq<Day>, firstDay: nat) returns (weeks: seq<seq<Cell>>)
    requires firstDay < WeekLength
    ensures weeks == Chunks(Blanks(firstDay) + Cells(days))
  {
    weeks := [];
    var week: seq<Cell> := [];
    var p := 0;
    while p < firstDay
      invariant 0 <= p <= firstDay
      invariant week == Blanks(p)
    {
      week := week + [Blank];
      p := p + 1;
    }
    assert Grouped(weeks, week, Blanks(firstDay)) by {
      assert Blanks(firstDay)[..0] == [];
    }
    var i := 0;
    while i < |days|
      invariant 0 <= i <= |days|
      invariant Grouped(weeks, week, Blanks(firstDay) + Cells(days[..i]))
    {
      var done := Blanks(firstDay) + Cells(days[..i]);
      GroupStep(weeks, week, done, Filled(days[i]));
      assert days[..i + 1][..i] == days[..i];
      assert Blanks(firstDay) + Cells(days[..i + 1]) == done + [Filled(days[i])];
      week := week + [Filled(days[i])];
      if |week| == WeekLength {
        weeks := weeks + [week];
        week := [];
      }
      i := i + 1;
    }
    assert days[..i] == days;
    GroupDone(weeks, week, Blanks(firstDay) + Cells(days));
    if |week| > 0 {
      weeks := weeks + [week];
    }
  }

  /** The padded weeks hold `firstDay + |days|` cells: the blanks and then the
      days in order; the first week opens with the blanks, every week but the
      last is full and none is empty. */
  lemma PaddedWeeks(days: seq<Day>, firstDay: nat)
    requires firstDay < WeekLength && |days| > 0
    ensures var weeks := Chunks(Blanks(firstDay) + Cells(days));
            && Flatten(weeks) == Blanks(firstDay) + Cells(days)
            && |Flatten(weeks)| == firstDay + |days|
            && |weeks| >= 1 && weeks[0][..firstDay] == Blanks(firstDay)
            && (forall i :: 0 <= i < |weeks| ==> 1 <= |weeks[i]| <= WeekLength)
            && (forall i :: 0 <= i < |weeks| - 1 ==> |weeks[i]| == WeekLength)
  {
    var s := Blanks(firstDay) + Cells(days);
    FlattenChunks(s);
    ChunkSizes(s);
    assert s[..firstDay] == Blanks(firstDay);
    if |s| <= WeekLength {
      assert Chunks(s)[0] == s;
    } else {
      assert Chunks(s)[0] == s[..WeekLength];
      assert s[..WeekLength][..firstDay] == s[..firstDay];
    }
  }

  // ---------------------------------------------------------------------------
  // Totals

  /** The sum of the per-year totals. */
  function Sum(values: seq<int>): int {
    if |values| == 0 then 0 else Sum(values[..|values| - 1]) + values[|values| - 1]
  }

  /** `Object.values(data.total).forEach(v => totalCount += v)` in `js/script.js`. */
  method TotalContributions(values: seq<int>) returns (total: int)
    ensures total == Sum(values)
  {
    total := 0;
    var i := 0;
    while i < |values|
      invariant 0 <= i <= |values|
      invariant total == Sum(values[..i])
    {
      assert values[..i + 1][..i] == values[..i];
      total := total + values[i];
      i := i + 1;
    }
    assert values[..i] == values;
  }

  /** `values.reduce((a, b) => a + b, acc)` in `script.js`: folding from the
      left with a starting value adds that value to the sum, so both scripts
      show the same total. */
  function Reduce(acc: int, values: seq<int>): (r: int)
    ensures r == acc + Sum(values)
    decreases |values|
  {
    if |values| == 0 then acc
    else
      SumCons(values[0], values[1..]);
      assert [values[0]] + values[1..] == values;
      Reduce(acc + values[0], values[1..])
  }

  lemma {:induction false} SumCons(x: int, values: seq<int>)
    ensures Sum([x] + values) == x + Sum(values)
    decreases |values|
  {
    if |values| > 0 {
      var s := [x] + values;
      assert s[..|s| - 1] == [x] + values[..|values| - 1];
      SumCons(x, values[..|values| - 1]);
    } else {
      assert [x] + values == [x];
      assert [x][..0] == [];
    }
  }

  // ---------------------------------------------------------------------------
  // The graph

  /** What the graph shows: the total and the columns. */
  datatype Graph<T> = Graph(total: int, weeks: seq<seq<T>>)

  /** The `then` callback of `js/script.js`: an empty `contributions` array
      throws into the `catch` (None); otherwise the total and the padded
      weeks. `firstDay` is the weekday of the first day's date. */
  method ShowContributions(days: seq<Day>, totals: seq<int>, firstDay: nat) returns (g: Option<Graph<Cell>>)
    requires firstDay < WeekLength
    ensures |days| == 0 ==> g.None?
    ensures |days| > 0 ==> g == Some(Graph(Sum(totals), Chunks(Blanks(firstDay) + Cells(days))))
  {
    if |days| == 0 {
      return None;
    }
    var total := TotalContributions(totals);
    var weeks := GroupPaddedWeeks(days, firstDay);
    return Some(Graph(total, weeks));
  }

  /** The `then` callback of `script.js`: the total by `reduce` and the
      unpadded weeks; an empty array gives no weeks. */
  method ShowLegacyContributions(days: seq<Day>, totals: seq<int>) returns (g: Graph<Day>)
    ensures g == Graph(Sum(totals), Chunks(days))
  {
    var total := Reduce(0, totals);
    var weeks := GroupWeeks(days);
    return Graph(total, weeks);
  }
}
