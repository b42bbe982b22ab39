/** The Meal Classifier of app.py (`process_pdf_to_data`): every extracted
    table is cleaned, its column labels made unique, its rows filtered to
    those whose first cell is a valid date token naming today, and the
    surviving rows, in order across all tables, fill the breakfast, lunch and
    dinner slots one each; rows beyond the third are dropped. Any exception
    on the way turns the whole answer into an empty mapping. */
module MealClassifier {
  import opened TextUtil
  import opened Cells
  import opened Columns
  import opened Dates

  /** One table as the PDF reader returns it: column labels and rows. */
  datatype Table = Table(columns: seq<string>, rows: seq<seq<Cell>>)

  /** Every row has one cell per column, as in any data frame. */
  predicate Rectangular(t: Table) {
    forall r :: 0 <= r < |t.rows| ==> |t.rows[r]| == |t.columns|
  }

  const Breakfast: string := "Caf\U{00E9} da Manh\U{00E3}"
  const Lunch: string := "Almo\U{00E7}o"
  const Dinner: string := "Jantar"

  /** `df.apply(... col.map(clean_cell) ...)`: clean every cell. The table
      keeps its shape; text stays text, without '\r' and without outer
      whitespace, and is the original with its carriage returns removed and
      then stripped; numbers and missing values are unchanged. */
  function CleanRows(rows: seq<seq<Cell>>): (r: seq<seq<Cell>>)
    ensures |r| == |rows|
    ensures forall i :: 0 <= i < |rows| ==> |r[i]| == |rows[i]|
    ensures forall i, j :: 0 <= i < |rows| && 0 <= j < |rows[i]| ==>
      && (r[i][j].Text? <==> rows[i][j].Text?)
      && (!rows[i][j].Text? ==> r[i][j] == rows[i][j])
      && (r[i][j].Text? ==> '\r' !in r[i][j].text && Trimmed(r[i][j].text))
      && (r[i][j].Text? ==> r[i][j].text == Strip(RemoveCarriageReturns(rows[i][j].text)))
  {
    seq(|rows|, i requires 0 <= i < |rows| => seq(|rows[i]|, j requires 0 <= j < |rows[i]| => CleanCellApp(rows[i][j])))
  }

  /** `row.values[1:].tolist()` after `fillna('N/A')`: the row without its
      date cell, with every missing value written as "N/A". */
  function Record(row: seq<Cell>): (r: seq<Cell>)
    requires |row| > 0
    ensures |r| == |row| - 1
    ensures forall j :: 0 <= j < |r| ==> r[j] != Missing && (row[j + 1] != Missing ==> r[j] == row[j + 1])
    ensures forall j :: 0 <= j < |r| && row[j + 1] == Missing ==> r[j] == Text("N/A")
  {
    seq(|row| - 1, j requires 0 <= j < |row| - 1 => FillMissing(row[j + 1]))
  }

  function Records(rows: seq<seq<Cell>>): (r: seq<seq<Cell>>)
    requires forall i :: 0 <= i < |rows| ==> |rows[i]| > 0
    ensures |r| == |rows|
    ensures forall i :: 0 <= i < |rows| ==> r[i] == Record(rows[i])
  {
    seq(|rows|, i requires 0 <= i < |rows| => Record(rows[i]))
  }

  /** A row whose date cell passes both filters of the loop. */
  predicate ServedToday(row: seq<Cell>, today: Date) {
    |row| > 0 && row[0].Text? && IsValidDate(row[0].text) && IsToday(row[0].text, today)
  }

  /** The rows of a table served today, in their order and each as often
      as it occurs: a plain filter, which unlike the loop never fails. */
  function ServedTodayRows(rows: seq<seq<Cell>>, today: Date): (r: seq<seq<Cell>>)
    ensures |r| <= |rows|
    ensures forall k :: 0 <= k < |r| ==> ServedToday(r[k], today) && r[k] in rows
  {
    if |rows| == 0 then []
    else
      var init := rows[..|rows| - 1];
      var last := rows[|rows| - 1];
      ServedTodayRows(init, today) + (if ServedToday(last, today) then [last] else [])
  }

  /** The two filters `df[df[c].apply(is_valid_date)]` and
      `df[df[c].apply(is_today)]` on the first column: None when a date
      cell is not text, since `split` then raises; otherwise the rows
      that pass, in order. */
  function TodayRows(rows: seq<seq<Cell>>, today: Date): (r: Option<seq<seq<Cell>>>)
    requires forall i :: 0 <= i < |rows| ==> |rows[i]| > 0
    ensures r.Some? ==> forall k :: 0 <= k < |r.value| ==> |r.value[k]| > 0 && ServedToday(r.value[k], today)
  {
    if |rows| == 0 then Some([])
    else
      var last := rows[|rows| - 1];
      match TodayRows(rows[..|rows| - 1], today)
      case None => None
      case Some(kept) =>
        if !last[0].Text? then None
        else if ServedToday(last, today) then Some(kept + [last])
        else Some(kept)
  }

  /** When processing a table raises, with `cols` its labels after
      `make_unique_columns`: no columns; a repeated first label; no rows;
      or a date cell that is not text. */
  predicate TableRaises(t: Table)
    requires Rectangular(t)
  {
    var cols := UniqueColumns(t.columns);
    || |cols| == 0
    || cols[0] in cols[1..]
    || |t.rows| == 0
    || exists i :: 0 <= i < |t.rows| && !t.rows[i][0].Text?
  }

  /** Under a unique first label and with rows, the table raises exactly
      when the date filters do. */
  lemma FilterRaisesIff(t: Table, today: Date)
    requires Rectangular(t) && |t.columns| > 0 && |t.rows| > 0
    requires UniqueColumns(t.columns)[0] !in UniqueColumns(t.columns)[1..]
    ensures TableRaises(t) <==> TodayRows(CleanRows(t.rows), today).None?
  {
    var rows := CleanRows(t.rows);
    TodayRowsFailIff(rows, today);
    assert forall i :: 0 <= i < |rows| ==> (rows[i][0].Text? <==> t.rows[i][0].Text?);
  }

  /** What one table contributes: None when processing it raises, otherwise
      the records of today's rows. It raises when the table has no columns
      (`df.columns[0]`); when the first label is still repeated after
      `make_unique_columns`; when a date cell is not text; and when the
      table has no rows under a unique first label. A repeated first label
      makes `df[label]` a frame. With rows, `is_valid_date` then meets a
      Series and raises. Without rows, `apply` gives back an empty frame
      holding only the columns of that label, and selecting with it calls
      `where`, which cannot reindex the condition on the repeated labels.
      Under a unique first label without rows, the empty result of `apply`
      is not boolean. Pandas reads it as a list of column labels, so the
      selection keeps no column and the second `df.columns[0]` raises. */
  function TableOutcome(t: Table, today: Date): (r: Option<seq<seq<Cell>>>)
    requires Rectangular(t)
    ensures r.None? <==> TableRaises(t)
    ensures r.Some? ==> r.value == Records(ServedTodayRows(CleanRows(t.rows), today))
  {
    var cols := UniqueColumns(t.columns);
    if |cols| == 0 then None
    else if cols[0] in cols[1..] then None
    else if |t.rows| == 0 then None
    else
      var rows := CleanRows(t.rows);
      FilterRaisesIff(t, today);
      match TodayRows(rows, today)
      case None => None
      case Some(kept) =>
        TodayRowsExactly(rows, today, kept);
        Some(Records(kept))
  }

  /** The contributions of a run of tables joined in order, or None as soon
      as one of them is None: the first exception ends the loop. */
  function Concat<T>(outcomes: seq<Option<seq<T>>>): Option<seq<T>> {
    if |outcomes| == 0 then Some([])
    else
      match Concat(outcomes[..|outcomes| - 1])
      case None => None
      case Some(done) =>
        match outcomes[|outcomes| - 1]
        case None => None
        case Some(more) => Some(done + more)
  }

  function Outcomes(tables: seq<Table>, today: Date): (r: seq<Option<seq<seq<Cell>>>>)
    requires forall k :: 0 <= k < |tables| ==> Rectangular(tables[k])
    ensures |r| == |tables|
    ensures forall k :: 0 <= k < |tables| ==> r[k] == TableOutcome(tables[k], today)
  {
    seq(|tables|, k requires 0 <= k < |tables| => TableOutcome(tables[k], today))
  }

  /** The records of all tables in order, or None when any table raises. */
  function QualifyingRecords(tables: seq<Table>, today: Date): (r: Option<seq<seq<Cell>>>)
    requires forall k :: 0 <= k < |tables| ==> Rectangular(tables[k])
    ensures r.None? <==> exists k :: 0 <= k < |tables| && TableOutcome(tables[k], today).None?
  {
    var outcomes := Outcomes(tables, today);
    ConcatFailIff(outcomes);
    Concat(outcomes)
  }

  /** The n-th record, if there is one, as a list of at most one record. */
  function Slot(recs: seq<seq<Cell>>, n: nat): (r: seq<seq<Cell>>)
    ensures |r| <= 1
    ensures |r| == 1 <==> n < |recs|
  {
    if n < |recs| then [recs[n]] else []
  }

  /** Appending a record fills the slot numbered like the records before
      it and leaves the other slots as they were. */
  lemma SlotAppend(recs: seq<seq<Cell>>, x: seq<Cell>, n: nat)
    ensures Slot(recs + [x], n) == if n == |recs| then Slot(recs, n) + [x] else Slot(recs, n)
  {
    if n < |recs| {
      assert (recs + [x])[n] == recs[n];
    }
  }

  /** The mapping returned: empty after an exception, otherwise the three
      meals, each holding the record the run-wide counter assigned to it. */
  function MealsOf(outcome: Option<seq<seq<Cell>>>): map<string, seq<seq<Cell>>> {
    match outcome
    case None => map[]
    case Some(recs) => map[Breakfast := Slot(recs, 0), Lunch := Slot(recs, 1), Dinner := Slot(recs, 2)]
  }

  /** `process_pdf_to_data` from the extracted tables on, with the clock's
      date as the parameter `today`. */
  method ProcessPdfToData(tables: seq<Table>, today: Date) returns (meals: map<string, seq<seq<Cell>>>)
    requires forall k :: 0 <= k < |tables| ==> Rectangular(tables[k])
    ensures meals == MealsOf(QualifyingRecords(tables, today))
  {
    ghost var outcomes := Outcomes(tables, today);
    var breakfast: seq<seq<Cell>> := [];
    var lunch: seq<seq<Cell>> := [];
    var dinner: seq<seq<Cell>> := [];
    var mealIndex := 0;
    ghost var recs: seq<seq<Cell>> := [];
    for i := 0 to |tables|
      invariant Concat(outcomes[..i]) == Some(recs)
      invariant mealIndex == |recs|
      invariant breakfast == Slot(recs, 0) && lunch == Slot(recs, 1) && dinner == Slot(recs, 2)
    {
      var kept := TodayRowsOf(tables[i], today);
      assert outcomes[i] == TableOutcome(tables[i], today);
      if kept.None? {
        ConcatFailIff(outcomes);
        return map[];
      }
      breakfast, lunch, dinner, mealIndex := ServeRows(kept.value, breakfast, lunch, dinner, mealIndex, recs);
      recs := recs + Records(kept.value);
      ConcatStep(outcomes, i + 1);
    }
    assert outcomes[..|tables|] == outcomes;
    meals := map[Breakfast := breakfast, Lunch := lunch, Dinner := dinner];
  }

  /** One table up to its filtered rows: clean, make the labels unique,
      then filter on the first column. None when any of these raises. */
  method TodayRowsOf(t: Table, today: Date) returns (kept: Option<seq<seq<Cell>>>)
    requires Rectangular(t)
    ensures kept.None? <==> TableOutcome(t, today).None?
    ensures kept.Some? ==> forall k :: 0 <= k < |kept.value| ==> |kept.value[k]| > 0
    ensures kept.Some? ==> TableOutcome(t, today) == Some(Records(kept.value))
  {
    var rows := CleanRows(t.rows);
    var cols := MakeUniqueColumns(t.columns);
    if |cols| == 0 {
      return None;
    }
    if cols[0] in cols[1..] || |rows| == 0 {
      return None;
    }
    kept := FilterToday(rows, today);
  }

  /** The inner loop over today's rows: the run-wide counter `meal_index`
      sends its first, second and third row to breakfast, lunch and dinner
      and ignores the rest. Given the meals of the records served so far,
      the result is the meals of those records followed by today's. */
  method ServeRows(kept: seq<seq<Cell>>, breakfast0: seq<seq<Cell>>, lunch0: seq<seq<Cell>>,
                   dinner0: seq<seq<Cell>>, mealIndex0: nat, ghost served: seq<seq<Cell>>)
    returns (breakfast: seq<seq<Cell>>, lunch: seq<seq<Cell>>, dinner: seq<seq<Cell>>, mealIndex: nat)
    requires forall k :: 0 <= k < |kept| ==> |kept[k]| > 0
    requires mealIndex0 == |served|
    requires breakfast0 == Slot(served, 0) && lunch0 == Slot(served, 1) && dinner0 == Slot(served, 2)
    ensures mealIndex == |served + Records(kept)|
    ensures breakfast == Slot(served + Records(kept), 0) && lunch == Slot(served + Records(kept), 1)
      && dinner == Slot(served + Records(kept), 2)
  {
    breakfast, lunch, dinner, mealIndex := breakfast0, lunch0, dinner0, mealIndex0;
    ghost var recs := served;
    for q := 0 to |kept|
      invariant recs == served + Records(kept)[..q]
      invariant mealIndex == |recs|
      invariant breakfast == Slot(recs, 0) && lunch == Slot(recs, 1) && dinner == Slot(recs, 2)
    {
      var record := Record(kept[q]);
      RecordsPrefixStep(kept, q);
      SlotAppend(recs, record, 0);
      SlotAppend(recs, record, 1);
      SlotAppend(recs, record, 2);
      mealIndex := mealIndex + 1;
      if mealIndex == 1 {
        breakfast := breakfast + [record];
      } else if mealIndex == 2 {
        lunch := lunch + [record];
      } else if mealIndex == 3 {
        dinner := dinner + [record];
      }
      recs := recs + [record];
    }
    assert Records(kept)[..|kept|] == Records(kept);
  }

  /** The first q + 1 records are the first q and the record of row q. */
  lemma RecordsPrefixStep(kept: seq<seq<Cell>>, q: nat)
    requires forall k :: 0 <= k < |kept| ==> |kept[k]| > 0
    requires q < |kept|
    ensures Records(kept)[..q + 1] == Records(kept)[..q] + [Record(kept[q])]
  {
  }

  /** The two filters of one table as the loop runs them, row by row;
      None when `is_valid_date` raises on a date cell that is not text. */
  method FilterToday(rows: seq<seq<Cell>>, today: Date) returns (kept: Option<seq<seq<Cell>>>)
    requires forall i :: 0 <= i < |rows| ==> |rows[i]| > 0
    ensures kept == TodayRows(rows, today)
  {
    var sofar: seq<seq<Cell>> := [];
    for r := 0 to |rows|
      invariant TodayRows(rows[..r], today) == Some(sofar)
    {
      assert rows[..r + 1][..r] == rows[..r];
      var date := rows[r][0];
      if !date.Text? {
        TodayRowsFailAfter(rows, r + 1, today);
        return None;
      }
      if IsValidDate(date.text) && IsToday(date.text, today) {
        sofar := sofar + [rows[r]];
      }
    }
    assert rows[..|rows|] == rows;
    return Some(sofar);
  }

  /** Once a date cell that is not text has been met, the filters raise
      whatever rows follow. */
  lemma {:induction false} TodayRowsFailAfter(rows: seq<seq<Cell>>, n: nat, today: Date)
    requires forall i :: 0 <= i < |rows| ==> |rows[i]| > 0
    requires 0 < n <= |rows| && TodayRows(rows[..n], today).None?
    ensures TodayRows(rows, today).None?
    decreases |rows| - n
  {
    if n < |rows| {
      assert rows[..n + 1][..n] == rows[..n];
      TodayRowsFailAfter(rows, n + 1, today);
    } else {
      assert rows[..n] == rows;
    }
  }

  /** The filters raise exactly when some date cell is not text. */
  lemma {:induction false} TodayRowsFailIff(rows: seq<seq<Cell>>, today: Date)
    requires forall i :: 0 <= i < |rows| ==> |rows[i]| > 0
    ensures TodayRows(rows, today).None? <==> exists i :: 0 <= i < |rows| && !rows[i][0].Text?
    decreases |rows|
  {
    if |rows| > 0 {
      var init := rows[..|rows| - 1];
      TodayRowsFailIff(init, today);
      if exists i :: 0 <= i < |init| && !init[i][0].Text? {
        var i :| 0 <= i < |init| && !init[i][0].Text?;
        assert rows[i] == init[i];
      }
      if exists i :: 0 <= i < |rows| && !rows[i][0].Text? {
        var i :| 0 <= i < |rows| && !rows[i][0].Text?;
        if i < |init| {
          assert init[i] == rows[i];
        }
      }
    }
  }

  /** The kept rows are exactly the rows served today, in their order: every
      kept row is a row of the table dated today, and every row dated today
      is kept. */
  lemma {:induction false} TodayRowsExactly(rows: seq<seq<Cell>>, today: Date, kept: seq<seq<Cell>>)
    requires forall i :: 0 <= i < |rows| ==> |rows[i]| > 0
    requires TodayRows(rows, today) == Some(kept)
    ensures forall k :: 0 <= k < |kept| ==> kept[k] in rows && |kept[k]| > 0 && ServedToday(kept[k], today)
    ensures forall i :: 0 <= i < |rows| && ServedToday(rows[i], today) ==> rows[i] in kept
    ensures |kept| <= |rows|
    ensures kept == ServedTodayRows(rows, today)
    decreases |rows|
  {
    if |rows| > 0 {
      var init := rows[..|rows| - 1];
      var last := rows[|rows| - 1];
      var prev := TodayRows(init, today).value;
      TodayRowsExactly(init, today, prev);
      assert forall i :: 0 <= i < |init| ==> init[i] == rows[i];
      forall k | 0 <= k < |kept|
        ensures kept[k] in rows && |kept[k]| > 0 && ServedToday(kept[k], today)
      {
        if k < |prev| {
          assert kept[k] == prev[k];
          var i :| 0 <= i < |init| && init[i] == prev[k];
          assert rows[i] == kept[k];
        } else {
          assert kept[k] == last;
        }
      }
    }
  }

  /** A date token that names today is always also a valid token, so the
      `is_valid_date` filter adds nothing to the `is_today` filter. */
  lemma ValidFilterRedundant(row: seq<Cell>, today: Date)
    requires |row| > 0
    ensures ServedToday(row, today) <==> row[0].Text? && IsToday(row[0].text, today)
  {
    if row[0].Text? && IsToday(row[0].text, today) {
      TodayIsValid(row[0].text, today);
    }
  }

  lemma ConcatStep<T>(outcomes: seq<Option<seq<T>>>, n: nat)
    requires 0 < n <= |outcomes| && Concat(outcomes[..n - 1]).Some? && outcomes[n - 1].Some?
    ensures Concat(outcomes[..n]) == Some(Concat(outcomes[..n - 1]).value + outcomes[n - 1].value)
  {
    assert outcomes[..n][..n - 1] == outcomes[..n - 1];
  }

  /** The loop yields records exactly when no table raises. */
  lemma {:induction false} ConcatFailIff<T>(outcomes: seq<Option<seq<T>>>)
    ensures Concat(outcomes).None? <==> exists i :: 0 <= i < |outcomes| && outcomes[i].None?
    decreases |outcomes|
  {
    if |outcomes| > 0 {
      var init := outcomes[..|outcomes| - 1];
      ConcatFailIff(init);
      if exists i :: 0 <= i < |init| && init[i].None? {
        var i :| 0 <= i < |init| && init[i].None?;
        assert outcomes[i] == init[i];
      }
      if exists i :: 0 <= i < |outcomes| && outcomes[i].None? {
        var i :| 0 <= i < |outcomes| && outcomes[i].None?;
        if i < |init| {
          assert init[i] == outcomes[i];
        }
      }
    }
  }

  /** Each record of a successful run is a record of one of the tables. */
  lemma {:induction false} ConcatSources<T>(outcomes: seq<Option<seq<T>>>, n: nat)
    requires Concat(outcomes).Some? && n < |Concat(outcomes).value|
    ensures exists i, m ::
      && 0 <= i < |outcomes| && outcomes[i].Some? && 0 <= m < |outcomes[i].value|
      && Concat(outcomes).value[n] == outcomes[i].value[m]
    decreases |outcomes|
  {
    var init := outcomes[..|outcomes| - 1];
    var done := Concat(init).value;
    var more := outcomes[|outcomes| - 1].value;
    if n < |done| {
      ConcatSources(init, n);
      var i, m :| 0 <= i < |init| && init[i].Some? && 0 <= m < |init[i].value| && done[n] == init[i].value[m];
      assert outcomes[i] == init[i];
    } else {
      assert Concat(outcomes).value[n] == more[n - |done|];
    }
  }

  /** One table that raises empties the whole answer, whatever the others
      hold. */
  lemma FailingTableDiscardsAll(tables: seq<Table>, i: nat, today: Date)
    requires forall k :: 0 <= k < |tables| ==> Rectangular(tables[k])
    requires i < |tables| && TableOutcome(tables[i], today).None?
    ensures MealsOf(QualifyingRecords(tables, today)) == map[]
  {
    ConcatFailIff(Outcomes(tables, today));
  }

  /** After a success the answer has exactly the three meal keys; meal n
      holds the n-th qualifying record when there is one and nothing
      otherwise, so at most three records are served in all. */
  lemma MealsServed(recs: seq<seq<Cell>>)
    ensures MealsOf(Some(recs)).Keys == {Breakfast, Lunch, Dinner}
    ensures |recs| > 0 ==> MealsOf(Some(recs))[Breakfast] == [recs[0]]
    ensures |recs| > 1 ==> MealsOf(Some(recs))[Lunch] == [recs[1]]
    ensures |recs| > 2 ==> MealsOf(Some(recs))[Dinner] == [recs[2]]
    ensures |recs| <= 2 ==> MealsOf(Some(recs))[Dinner] == []
    ensures |MealsOf(Some(recs))[Breakfast]| + |MealsOf(Some(recs))[Lunch]| + |MealsOf(Some(recs))[Dinner]|
      == if |recs| < 3 then |recs| else 3
  {
    assert Breakfast != Lunch && Lunch != Dinner && Breakfast != Dinner by {
      assert Breakfast[0] != Lunch[0] && Lunch[0] != Dinner[0] && Breakfast[0] != Dinner[0];
    }
  }

  /** Rows after the third qualifying one change nothing. */
  lemma LaterRecordsDropped(recs: seq<seq<Cell>>, later: seq<seq<Cell>>)
    requires |recs| >= 3
    ensures MealsOf(Some(recs + later)) == MealsOf(Some(recs))
  {
    assert Slot(recs + later, 0) == Slot(recs, 0);
    assert Slot(recs + later, 1) == Slot(recs, 1);
    assert Slot(recs + later, 2) == Slot(recs, 2);
  }

  /** Every record one table contributes is the record of one of its rows
      dated today. */
  lemma TableRecordsFromTodayRows(t: Table, today: Date, m: nat)
    requires Rectangular(t) && TableOutcome(t, today).Some? && m < |TableOutcome(t, today).value|
    ensures exists r ::
      && 0 <= r < |t.rows| && ServedToday(CleanRows(t.rows)[r], today)
      && TableOutcome(t, today).value[m] == Record(CleanRows(t.rows)[r])
  {
    var served := ServedTodayRows(CleanRows(t.rows), today);
    assert TableOutcome(t, today).value[m] == Record(served[m]);
    var r :| 0 <= r < |t.rows| && CleanRows(t.rows)[r] == served[m];
  }

  /** Every record served comes from a row of one of the tables dated
      today, has one cell fewer than that table has columns, and holds no
      missing value. */
  lemma RecordsFromTodayRows(tables: seq<Table>, today: Date, n: nat)
    requires forall k :: 0 <= k < |tables| ==> Rectangular(tables[k])
    requires QualifyingRecords(tables, today).Some? && n < |QualifyingRecords(tables, today).value|
    ensures exists i, r ::
      && 0 <= i < |tables| && 0 <= r < |tables[i].rows|
      && ServedToday(CleanRows(tables[i].rows)[r], today)
      && QualifyingRecords(tables, today).value[n] == Record(CleanRows(tables[i].rows)[r])
      && |QualifyingRecords(tables, today).value[n]| == |tables[i].columns| - 1
    ensures forall j :: 0 <= j < |QualifyingRecords(tables, today).value[n]| ==> QualifyingRecords(tables, today).value[n][j] != Missing
  {
    var i, m := QualifyingSource(tables, today, n);
    var t := tables[i];
    TableRecordsFromTodayRows(t, today, m);
    var r :| 0 <= r < |t.rows| && ServedToday(CleanRows(t.rows)[r], today)
      && TableOutcome(t, today).value[m] == Record(CleanRows(t.rows)[r]);
    var row := CleanRows(t.rows)[r];
    var rec := QualifyingRecords(tables, today).value[n];
    assert rec == Record(row) && |row| == |t.columns|;
  }

  /** The table and position a qualifying record comes from. */
  lemma QualifyingSource(tables: seq<Table>, today: Date, n: nat) returns (i: nat, m: nat)
    requires forall k :: 0 <= k < |tables| ==> Rectangular(tables[k])
    requires QualifyingRecords(tables, today).Some? && n < |QualifyingRecords(tables, today).value|
    ensures i < |tables| && TableOutcome(tables[i], today).Some? && m < |TableOutcome(tables[i], today).value|
    ensures QualifyingRecords(tables, today).value[n] == TableOutcome(tables[i], today).value[m]
  {
    var outcomes := Outcomes(tables, today);
    ConcatSources(outcomes, n);
    i, m :| 0 <= i < |outcomes| && outcomes[i].Some? && 0 <= m < |outcomes[i].value|
      && Concat(outcomes).value[n] == outcomes[i].value[m];
  }

  /** A table whose first label is still repeated after
      `make_unique_columns` raises, whether or not it has rows. */
  lemma RepeatedFirstLabelFails(t: Table, today: Date)
    requires Rectangular(t)
    requires |t.columns| > 0 && UniqueColumns(t.columns)[0] in UniqueColumns(t.columns)[1..]
    ensures TableOutcome(t, today).None?
  {
  }

  /** When no generated label clashes, a table raises exactly when it has
      no columns, has no rows, or has a date cell that is not text. */
  lemma TableFailsIff(t: Table, today: Date)
    requires Rectangular(t) && NoSuffixClash(t.columns)
    ensures TableOutcome(t, today).None? <==>
      |t.columns| == 0 || |t.rows| == 0 || exists i :: 0 <= i < |t.rows| && !t.rows[i][0].Text?
  {
    var cols := UniqueColumns(t.columns);
    UniqueColumnsDistinct(t.columns);
    if |cols| > 0 {
      assert cols[0] !in cols[1..] by {
        forall p | 1 <= p < |cols|
          ensures cols[p] != cols[0]
        {
        }
      }
      var rows := CleanRows(t.rows);
      TodayRowsFailIff(rows, today);
      assert forall i :: 0 <= i < |rows| ==> (rows[i][0].Text? <==> t.rows[i][0].Text?);
    }
  }

  /** The header ["A_1","A","A"] becomes ["A_1","A","A_1"], so a table with
      that header raises even when it has no rows. */
  lemma ClashingHeaderWithoutRowsFails(t: Table, today: Date)
    requires t == Table(["A_1", "A", "A"], [])
    ensures TableOutcome(t, today).None?
  {
    FirstLabelClash();
    assert UniqueColumns(t.columns)[0] == UniqueColumns(t.columns)[1..][1];
  }
}
