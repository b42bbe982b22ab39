/** The Section Segmenter of main.py (`process_pdf_to_data`): the extracted
    tables are walked in order; a table whose page text is a section title
    closes the open table and opens a new one with its first row as header;
    any other table continues the open one. After each table the open table
    keeps only rows whose date cell reads as "dd/mm/yyyy", has missing values
    written "N/A", and gains a 'Refeição' column holding a fixed meal name
    and a 'Título' column holding the section title. At the end all tables
    are concatenated and duplicate rows dropped. An exception anywhere ends
    the run with no result. */
module Segmenter {
  import opened TextUtil
  import opened Sequences
  import opened Cells
  import opened Columns
  import opened Dates
  import opened Titles

  /** A data frame. Its labels are cells, since a header row supplies them. */
  datatype Frame = Frame(columns: seq<Cell>, rows: seq<seq<Cell>>)

  predicate Rectangular(f: Frame) {
    forall r :: 0 <= r < |f.rows| ==> |f.rows[r]| == |f.columns|
  }

  /** One extracted table with the first cell of the page the loop reads
      for it (the page numbered like the table). */
  datatype Chunk = Chunk(labels: seq<string>, rows: seq<seq<Cell>>, pageText: Cell)

  predicate WellFormed(c: Chunk) {
    forall r :: 0 <= r < |c.rows| ==> |c.rows[r]| == |c.labels|
  }

  const MealLabel: string := "Refei\U{00E7}\U{00E3}o"
  const TitleLabel: string := "T\U{00ED}tulo"
  /** The value written in every row's 'Refeição' column, whatever the
      section: the same lunch title for every table. */
  const MealName: string := "CARD\U{00C1}PIO DE MARIO 2024 \U{2013} UFV FLORESTAL \U{2013} ALMO\U{00C7}O"

  /** `df.apply(... col.map(clean_cell) ...)` with main.py's clean_cell. The
      table keeps its shape; text stays text and is the original stripped
      of outer whitespace; numbers and missing values are unchanged. */
  function CleanRows(rows: seq<seq<Cell>>): (r: seq<seq<Cell>>)
    ensures |r| == |rows|
    ensures forall i :: 0 <= i < |rows| ==> |r[i]| == |rows[i]|
    ensures forall i, j :: 0 <= i < |rows| && 0 <= j < |rows[i]| ==>
      && (r[i][j].Text? <==> rows[i][j].Text?)
      && (!rows[i][j].Text? ==> r[i][j] == rows[i][j])
      && (r[i][j].Text? ==> Trimmed(r[i][j].text) && r[i][j].text == Strip(rows[i][j].text))
  {
    seq(|rows|, i requires 0 <= i < |rows| => seq(|rows[i]|, j requires 0 <= j < |rows[i]| => CleanCellMain(rows[i][j])))
  }

  /** The rows whose date cell `is_valid_date` accepts, in order. */
  function DatedRows(rows: seq<seq<Cell>>): (r: seq<seq<Cell>>)
    requires forall i :: 0 <= i < |rows| ==> |rows[i]| > 0
    ensures |r| <= |rows|
    ensures forall k :: 0 <= k < |r| ==> r[k] in rows && |r[k]| > 0 && IsValidNumericDate(r[k][0])
  {
    if |rows| == 0 then []
    else
      var kept := DatedRows(rows[..|rows| - 1]);
      var last := rows[|rows| - 1];
      if IsValidNumericDate(last[0]) then kept + [last] else kept
  }

  /** Every row whose date cell is accepted is kept. */
  lemma {:induction false} DatedRowsComplete(rows: seq<seq<Cell>>, i: nat)
    requires forall k :: 0 <= k < |rows| ==> |rows[k]| > 0
    requires i < |rows| && IsValidNumericDate(rows[i][0])
    ensures rows[i] in DatedRows(rows)
    decreases |rows|
  {
    if i < |rows| - 1 {
      var init := rows[..|rows| - 1];
      assert init[i] == rows[i];
      DatedRowsComplete(init, i);
    }
  }

  /** `fillna('N/A')` on one row: no missing value is left, a missing cell
      reads "N/A" and every other cell is kept. */
  function FillRow(row: seq<Cell>): (r: seq<Cell>)
    ensures |r| == |row|
    ensures forall j :: 0 <= j < |r| ==> r[j] != Missing
    ensures forall j :: 0 <= j < |r| ==> (row[j] == Missing ==> r[j] == Text("N/A")) && (row[j] != Missing ==> r[j] == row[j])
  {
    seq(|row|, j requires 0 <= j < |row| => FillMissing(row[j]))
  }

  /** A row as the two inserts leave it: the meal name, the title, then the
      row with missing values filled. */
  function LabelRows(rows: seq<seq<Cell>>, title: Cell): (r: seq<seq<Cell>>)
    ensures |r| == |rows|
    ensures forall i :: 0 <= i < |rows| ==> |r[i]| == |rows[i]| + 2 && r[i][0] == Text(MealName) && r[i][1] == title
    ensures forall i :: 0 <= i < |rows| ==> r[i][2..] == FillRow(rows[i])
  {
    seq(|rows|, i requires 0 <= i < |rows| => [Text(MealName), title] + FillRow(rows[i]))
  }

  /** A row of an annotated table: the meal name, a section title, a date
      cell that was accepted (or was missing and now reads "N/A"), and no
      missing value after the title. */
  predicate AnnotatedRow(row: seq<Cell>) {
    && |row| >= 3
    && row[0] == Text(MealName)
    && IsNewTableTitle(row[1])
    && (row[2] == Text("N/A") || IsValidNumericDate(row[2]))
    && forall j :: 2 <= j < |row| ==> row[j] != Missing
  }

  /** Rows whose date cell is accepted, labelled under a section title,
      are rows of an annotated table. */
  lemma LabelRowsAnnotated(rows: seq<seq<Cell>>, title: Cell)
    requires forall k :: 0 <= k < |rows| ==> |rows[k]| > 0 && IsValidNumericDate(rows[k][0])
    ensures IsNewTableTitle(title) ==> forall k :: 0 <= k < |rows| ==> AnnotatedRow(LabelRows(rows, title)[k])
  {
    if IsNewTableTitle(title) {
      forall k | 0 <= k < |rows|
        ensures AnnotatedRow(LabelRows(rows, title)[k])
      {
        var r := LabelRows(rows, title)[k];
        assert r == [Text(MealName), title] + FillRow(rows[k]);
        assert r[2] == FillMissing(rows[k][0]);
        assert forall j :: 2 <= j < |r| ==> r[j] == FillMissing(rows[k][j - 2]);
      }
    }
  }

  /** A table as it leaves the steps after each chunk. */
  predicate Annotated(f: Frame) {
    && Rectangular(f)
    && |f.columns| >= 2
    && f.columns[0] == Text(MealLabel)
    && f.columns[1] == Text(TitleLabel)
    && Text(MealLabel) !in f.columns[1..]
    && forall r :: 0 <= r < |f.rows| ==> AnnotatedRow(f.rows[r])
  }

  /** Every row DatedRows keeps has the width all the rows had. */
  lemma DatedRowsWidth(rows: seq<seq<Cell>>, w: nat)
    requires forall i :: 0 <= i < |rows| ==> |rows[i]| == w && w > 0
    ensures forall k :: 0 <= k < |DatedRows(rows)| ==> |DatedRows(rows)[k]| == w
  {
    var kept := DatedRows(rows);
    forall k | 0 <= k < |kept|
      ensures |kept[k]| == w
    {
      var i :| 0 <= i < |rows| && rows[i] == kept[k];
    }
  }

  /** `current_table[current_table[current_table.columns[0]].apply(is_valid_date)]`.
      With a repeated first label, `df[label]` is a frame and the selection
      raises when there are rows; over no rows it keeps the table. With a
      unique first label and no rows, the empty result of `apply` is not
      boolean, so pandas reads it as a list of column labels and selects no
      column, leaving an empty frame. Otherwise the rows whose date cell
      is accepted. */
  function SelectDated(f: Frame): (r: Option<Frame>)
    requires Rectangular(f) && |f.columns| > 0
    ensures r.None? <==> f.columns[0] in f.columns[1..] && |f.rows| > 0
    ensures r.Some? ==> Rectangular(r.value) && (r.value.columns == f.columns || r.value == Frame([], []))
    ensures r.Some? ==> forall k :: 0 <= k < |r.value.rows| ==>
      |r.value.rows[k]| > 0 && IsValidNumericDate(r.value.rows[k][0])
  {
    if f.columns[0] in f.columns[1..] then (if |f.rows| > 0 then None else Some(f))
    else if |f.rows| == 0 then Some(Frame([], []))
    else
      DatedRowsWidth(f.rows, |f.columns|);
      Some(Frame(f.columns, DatedRows(f.rows)))
  }

  /** `insert(0, 'Refeição', ...)` and `insert(1, 'Título', title)` after
      `fillna('N/A')`; `insert` raises when the label is already there.
      Under a section title the result is an annotated table. */
  function InsertLabels(g: Frame, title: Cell): (r: Option<Frame>)
    requires Rectangular(g)
    requires forall k :: 0 <= k < |g.rows| ==> |g.rows[k]| > 0 && IsValidNumericDate(g.rows[k][0])
    ensures r.None? <==> Text(MealLabel) in g.columns || Text(TitleLabel) in g.columns
    ensures r.Some? ==> r.value == Frame([Text(MealLabel), Text(TitleLabel)] + g.columns, LabelRows(g.rows, title))
    ensures r.Some? && IsNewTableTitle(title) ==> Annotated(r.value)
  {
    if Text(MealLabel) in g.columns || Text(TitleLabel) in g.columns then None
    else
      assert Text(MealLabel) != Text(TitleLabel) by {
        assert MealLabel[0] != TitleLabel[0];
      }
      LabelRowsAnnotated(g.rows, title);
      Some(Frame([Text(MealLabel), Text(TitleLabel)] + g.columns, LabelRows(g.rows, title)))
  }

  /** The steps applied to the open table after each chunk: select rows by
      `is_valid_date` on the first column, `fillna('N/A')`, insert
      'Refeição' at 0 and 'Título' at 1. None when a step raises: there is
      no first column; the first label is repeated and there are rows (the
      selection is then a frame); or a label to insert is already there.
      With no rows under a unique first label the empty selection leaves a
      frame without columns, so only the two inserted ones remain. */
  function Annotate(f: Frame, title: Cell): (r: Option<Frame>)
    requires Rectangular(f)
    ensures |f.columns| == 0 ==> r.None?
    ensures |f.rows| > 0 && Text(MealLabel) in f.columns ==> r.None?
    ensures r.Some? && IsNewTableTitle(title) ==> Annotated(r.value)
  {
    if |f.columns| == 0 then None
    else
      match SelectDated(f)
      case None => None
      case Some(g) => InsertLabels(g, title)
  }

  /** Labelling the dated rows under the header h puts every row with an
      accepted date cell, filled and behind the meal name and the title, in
      the result, and nothing else. */
  lemma LabelDatedRows(h: seq<Cell>, rows: seq<seq<Cell>>, title: Cell)
    requires forall i :: 0 <= i < |rows| ==> |rows[i]| > 0
    ensures TitleTable(Frame([Text(MealLabel), Text(TitleLabel)] + h, LabelRows(DatedRows(rows), title)), h, rows, title)
  {
    var kept := DatedRows(rows);
    var out := LabelRows(kept, title);
    forall i | 0 <= i < |rows| && IsValidNumericDate(rows[i][0])
      ensures [Text(MealName), title] + FillRow(rows[i]) in out
    {
      DatedRowsComplete(rows, i);
      var k :| 0 <= k < |kept| && kept[k] == rows[i];
      assert out[k] == [Text(MealName), title] + FillRow(rows[i]);
    }
    forall k | 0 <= k < |out|
      ensures exists i :: 0 <= i < |rows| && IsValidNumericDate(rows[i][0]) && out[k] == [Text(MealName), title] + FillRow(rows[i])
    {
      var i :| 0 <= i < |rows| && rows[i] == kept[k];
    }
  }

  /** With a unique first label, rows, and neither inserted label present,
      the annotated table is the header behind 'Refeição' and 'Título' over
      exactly the rows whose date cell `is_valid_date` accepts, each behind
      the meal name and the title and with its missing values filled. */
  lemma AnnotateKeepsDatedRows(f: Frame, title: Cell)
    requires Rectangular(f) && |f.columns| > 0 && f.columns[0] !in f.columns[1..] && |f.rows| > 0
    requires Text(MealLabel) !in f.columns && Text(TitleLabel) !in f.columns
    ensures Annotate(f, title).Some?
    ensures TitleTable(Annotate(f, title).value, f.columns, f.rows, title)
  {
    var kept := DatedRows(f.rows);
    assert SelectDated(f) == Some(Frame(f.columns, kept));
    assert Annotate(f, title) == InsertLabels(Frame(f.columns, kept), title);
    assert Annotate(f, title).value == Frame([Text(MealLabel), Text(TitleLabel)] + f.columns, LabelRows(kept, title));
    LabelDatedRows(f.columns, f.rows, title);
  }

  /** A row whose date cell is missing passes the date filter, since
      `pd.to_datetime` turns a missing value into NaT without raising, and
      comes out with "N/A" in its date column. */
  lemma MissingDateKept(f: Frame, title: Cell, i: nat)
    requires Rectangular(f) && |f.columns| > 0 && f.columns[0] !in f.columns[1..]
    requires Text(MealLabel) !in f.columns && Text(TitleLabel) !in f.columns
    requires i < |f.rows| && f.rows[i][0] == Missing
    ensures Annotate(f, title).Some?
    ensures [Text(MealName), title, Text("N/A")] + FillRow(f.rows[i][1..]) in Annotate(f, title).value.rows
  {
    AnnotateKeepsDatedRows(f, title);
    var row := f.rows[i];
    assert [Text(MealName), title] + FillRow(row) == [Text(MealName), title, Text("N/A")] + FillRow(row[1..]);
  }

  /** A row whose date cell the PDF left blank, which `clean_cell` leaves
      as the empty text, passes the date filter too and keeps its empty
      date. */
  lemma BlankDateKept(f: Frame, title: Cell, i: nat)
    requires Rectangular(f) && |f.columns| > 0 && f.columns[0] !in f.columns[1..]
    requires Text(MealLabel) !in f.columns && Text(TitleLabel) !in f.columns
    requires i < |f.rows| && f.rows[i][0] == Text("")
    ensures Annotate(f, title).Some?
    ensures [Text(MealName), title, Text("")] + FillRow(f.rows[i][1..]) in Annotate(f, title).value.rows
  {
    AnnotateKeepsDatedRows(f, title);
    var row := f.rows[i];
    assert [Text(MealName), title] + FillRow(row) == [Text(MealName), title, Text("")] + FillRow(row[1..]);
  }

  /** The loop's variables: `current_table`, `current_title`, `all_data`. */
  datatype State = State(current: Option<Frame>, title: Cell, allData: seq<Frame>)

  const Start: State := State(None, Text(""), [])

  /** What the loop keeps true: every table held is annotated, and an open
      table comes with a section title. */
  predicate Consistent(s: State) {
    && (s.current.Some? ==> Annotated(s.current.value) && IsNewTableTitle(s.title))
    && forall k :: 0 <= k < |s.allData| ==> Annotated(s.allData[k])
  }

  /** `all_data` with the open table appended, if there is one. */
  function Closed(s: State): (r: seq<Frame>)
    ensures Consistent(s) ==> forall k :: 0 <= k < |r| ==> Annotated(r[k])
  {
    if s.current.Some? then s.allData + [s.current.value] else s.allData
  }

  /** One iteration of the loop. A title chunk closes the open table and
      opens its own, its first row becoming the header (which raises when
      it has no rows). A chunk without a title is dropped while no table is
      open, and is otherwise appended to the open table after taking its
      labels (which raises when the widths differ). */
  function Step(s: State, c: Chunk): (r: Option<State>)
    requires Consistent(s) && WellFormed(c)
    ensures r.Some? ==> Consistent(r.value)
  {
    var rows := CleanRows(c.rows);
    if IsNewTableTitle(c.pageText) then
      if |rows| == 0 then None
      else
        match Annotate(Frame(rows[0], rows[1..]), c.pageText)
        case None => None
        case Some(f) => Some(State(Some(f), c.pageText, Closed(s)))
    else if s.current.None? then Some(s)
    else if |c.labels| != |s.current.value.columns| then None
    else
      var cur := s.current.value;
      match Annotate(Frame(cur.columns, cur.rows + rows), s.title)
      case None => None
      case Some(f) => Some(State(Some(f), s.title, s.allData))
  }

  /** The loop over the chunks, from the initial state. */
  function Run(chunks: seq<Chunk>): (r: Option<State>)
    requires forall i :: 0 <= i < |chunks| ==> WellFormed(chunks[i])
    ensures r.Some? ==> Consistent(r.value)
  {
    if |chunks| == 0 then Some(Start)
    else
      match Run(chunks[..|chunks| - 1])
      case None => None
      case Some(s) => Step(s, chunks[|chunks| - 1])
  }

  /** The headers of the frames, in order. */
  function Headers(frames: seq<Frame>): (r: seq<seq<Cell>>)
    ensures |r| == |frames| && forall k :: 0 <= k < |frames| ==> r[k] == frames[k].columns
  {
    seq(|frames|, k requires 0 <= k < |frames| => frames[k].columns)
  }

  /** The rows of the frames, frame by frame. */
  function Bodies(frames: seq<Frame>): (r: seq<seq<seq<Cell>>>)
    ensures |r| == |frames| && forall k :: 0 <= k < |frames| ==> r[k] == frames[k].rows
  {
    seq(|frames|, k requires 0 <= k < |frames| => frames[k].rows)
  }

  /** All labels of all frames, in order. */
  function AllLabels(frames: seq<Frame>): seq<Cell> {
    Flatten(Headers(frames))
  }

  predicate SameColumns(frames: seq<Frame>)
    requires |frames| > 0
  {
    forall k :: 0 <= k < |frames| ==> frames[k].columns == frames[0].columns
  }

  /** A row moved under the given labels: the cell of each label it has,
      a missing value for the others. */
  function AlignRow(row: seq<Cell>, columns: seq<Cell>, labels: seq<Cell>): (r: seq<Cell>)
    requires |row| == |columns|
    ensures |r| == |labels|
    ensures forall u :: 0 <= u < |labels| && labels[u] !in columns ==> r[u] == Missing
    ensures forall u :: 0 <= u < |labels| && labels[u] in columns ==> r[u] == row[IndexOf(columns, labels[u])]
  {
    seq(|labels|, u requires 0 <= u < |labels| =>
      if labels[u] in columns then row[IndexOf(columns, labels[u])] else Missing)
  }

  /** The rows of a frame moved under the given labels: each row has one
      cell per label, the frame's own cell under a label it has and a
      missing value under the others. */
  function Align(f: Frame, labels: seq<Cell>): (r: seq<seq<Cell>>)
    requires Rectangular(f)
    ensures |r| == |f.rows|
    ensures forall i :: 0 <= i < |f.rows| ==> |r[i]| == |labels|
    ensures forall i, u :: 0 <= i < |f.rows| && 0 <= u < |labels| ==>
      r[i][u] == if labels[u] in f.columns then f.rows[i][IndexOf(f.columns, labels[u])] else Missing
  {
    seq(|f.rows|, i requires 0 <= i < |f.rows| => AlignRow(f.rows[i], f.columns, labels))
  }

  /** The rows of every frame aligned to the given labels, frame by frame. */
  function AlignAll(frames: seq<Frame>, labels: seq<Cell>): (r: seq<seq<seq<Cell>>>)
    requires forall k :: 0 <= k < |frames| ==> Rectangular(frames[k])
    ensures |r| == |frames| && forall k :: 0 <= k < |frames| ==> r[k] == Align(frames[k], labels)
  {
    seq(|frames|, k requires 0 <= k < |frames| => Align(frames[k], labels))
  }

  /** `pd.concat(all_data, ignore_index=True)`: with equal headers the rows
      one after another; otherwise the labels in order of first appearance,
      each row aligned under them. Aligning a frame whose own labels repeat
      raises. */
  function ConcatFrames(frames: seq<Frame>): (r: Option<Frame>)
    requires |frames| > 0 && forall k :: 0 <= k < |frames| ==> Rectangular(frames[k])
    ensures r.None? <==> !SameColumns(frames) && exists k :: 0 <= k < |frames| && !Distinct(frames[k].columns)
    ensures r.Some? && SameColumns(frames) ==> r.value.columns == frames[0].columns
    ensures r.Some? && !SameColumns(frames) ==> r.value.columns == Unique(AllLabels(frames))
  {
    if SameColumns(frames) then
      Some(Frame(frames[0].columns, Flatten(Bodies(frames))))
    else if forall k :: 0 <= k < |frames| ==> Distinct(frames[k].columns) then
      var labels := Unique(AllLabels(frames));
      Some(Frame(labels, Flatten(AlignAll(frames, labels))))
    else None
  }

  /** After the loop: append the open table; concatenate and drop duplicate
      rows, or return an empty frame when there is nothing. */
  function Finish(s: State): (r: Option<Frame>)
    requires Consistent(s)
    ensures |Closed(s)| == 0 ==> r == Some(Frame([], []))
    ensures |Closed(s)| > 0 ==> (r.None? <==> ConcatFrames(Closed(s)).None?)
    ensures |Closed(s)| > 0 && r.Some? ==> r.value.columns == ConcatFrames(Closed(s)).value.columns
    ensures r.Some? ==> Distinct(r.value.rows)
  {
    var frames := Closed(s);
    if |frames| == 0 then Some(Frame([], []))
    else
      match ConcatFrames(frames)
      case None => None
      case Some(f) => Some(Frame(f.columns, Unique(f.rows)))
  }

  /** The whole of `process_pdf_to_data` after reading the tables: nothing
      when a step of the loop or the final concatenation raises; otherwise a
      frame in which no row occurs twice. */
  function Segment(chunks: seq<Chunk>): (r: Option<Frame>)
    requires forall i :: 0 <= i < |chunks| ==> WellFormed(chunks[i])
    ensures r.None? <==> Run(chunks).None? || Finish(Run(chunks).value).None?
    ensures r.Some? ==> Distinct(r.value.rows)
  {
    match Run(chunks)
    case None => None
    case Some(s) => Finish(s)
  }

  /** `process_pdf_to_data` from the extracted tables and their page texts
      on; None where the source prints the exception and returns None. */
  method ProcessPdfToData(chunks: seq<Chunk>) returns (result: Option<Frame>)
    requires forall i :: 0 <= i < |chunks| ==> WellFormed(chunks[i])
    ensures result == Segment(chunks)
  {
    var allData: seq<Frame> := [];
    var current: Option<Frame> := None;
    var currentTitle: Cell := Text("");
    for i := 0 to |chunks|
      invariant Run(chunks[..i]) == Some(State(current, currentTitle, allData))
    {
      assert chunks[..i + 1][..i] == chunks[..i];
      var ok;
      ok, current, currentTitle, allData := ProcessChunk(chunks[i], current, currentTitle, allData);
      if !ok {
        RunFailsAfter(chunks, i + 1);
        return None;
      }
    }
    assert chunks[..|chunks|] == chunks;
    result := Finish(State(current, currentTitle, allData));
  }

  /** The body of the loop for one chunk; ok is false where a step raises. */
  method ProcessChunk(chunk: Chunk, current0: Option<Frame>, title0: Cell, allData0: seq<Frame>)
    returns (ok: bool, current: Option<Frame>, currentTitle: Cell, allData: seq<Frame>)
    requires WellFormed(chunk) && Consistent(State(current0, title0, allData0))
    ensures ok <==> Step(State(current0, title0, allData0), chunk).Some?
    ensures ok ==> Step(State(current0, title0, allData0), chunk) == Some(State(current, currentTitle, allData))
  {
    current, currentTitle, allData := current0, title0, allData0;
    var rows := CleanRows(chunk.rows);
    // both branches below replace these labels
    var labels := MakeUniqueColumns(chunk.labels);
    if IsNewTableTitle(chunk.pageText) {
      if current.Some? {
        allData := allData + [current.value];
      }
      if |rows| == 0 {
        return false, current, currentTitle, allData;
      }
      current := Some(Frame(rows[0], rows[1..]));
      currentTitle := chunk.pageText;
    } else if current.Some? {
      if |labels| != |current.value.columns| {
        return false, current, currentTitle, allData;
      }
      current := Some(Frame(current.value.columns, current.value.rows + rows));
    }
    if current.Some? {
      current := Annotate(current.value, currentTitle);
      if current.None? {
        return false, current, currentTitle, allData;
      }
    }
    ok := true;
  }

  /** Once a step has raised, the run has no result whatever follows. */
  lemma {:induction false} RunFailsAfter(chunks: seq<Chunk>, n: nat)
    requires forall i :: 0 <= i < |chunks| ==> WellFormed(chunks[i])
    requires 0 < n <= |chunks| && Run(chunks[..n]).None?
    ensures Segment(chunks).None?
    decreases |chunks| - n
  {
    if n < |chunks| {
      assert chunks[..n + 1][..n] == chunks[..n];
      RunFailsAfter(chunks, n + 1);
    } else {
      assert chunks[..n] == chunks;
    }
  }

  /** A chunk without a title never continues an open table: once the
      combined table has a row, the 'Refeição' label taken over from the open
      table makes the selection keep it and the insert raise. */
  lemma ContinuationFails(s: State, c: Chunk)
    requires Consistent(s) && WellFormed(c)
    requires !IsNewTableTitle(c.pageText) && s.current.Some?
    requires |s.current.value.rows| + |c.rows| > 0
    ensures Step(s, c).None?
  {
    var cur := s.current.value;
    if |c.labels| == |cur.columns| {
      var f := Frame(cur.columns, cur.rows + CleanRows(c.rows));
      assert f.columns[0] == Text(MealLabel);
    }
  }

  /** A continuation over no rows at all survives: the empty selection
      drops every label and the two inserts put back only their own. */
  lemma EmptyContinuationKept(s: State, c: Chunk)
    requires Consistent(s) && WellFormed(c)
    requires !IsNewTableTitle(c.pageText) && s.current.Some?
    requires |s.current.value.rows| == 0 && |c.rows| == 0 && |c.labels| == |s.current.value.columns|
    ensures Step(s, c) == Some(State(Some(Frame([Text(MealLabel), Text(TitleLabel)], [])), s.title, s.allData))
  {
    var cur := s.current.value;
    assert cur.rows + CleanRows(c.rows) == [];
    assert cur.columns[0] == Text(MealLabel) && cur.columns[0] !in cur.columns[1..];
    assert LabelRows([], s.title) == [];
    var both: seq<Cell> := [Text(MealLabel), Text(TitleLabel)];
    assert both + [] == both;
    assert Annotate(Frame(cur.columns, []), s.title) == Some(Frame([Text(MealLabel), Text(TitleLabel)], []));
  }

  /** A title chunk closes the open table: it is appended to `all_data`,
      and the new table carries the new title. The new table is the chunk's
      first cleaned row as header over the other cleaned rows, annotated.
      When a row follows a header whose first label is unique, its labels
      are 'Refeição', 'Título' and the header, and its rows are exactly the
      later rows whose date cell is accepted, each behind the meal name and
      the new title, filled. */
  lemma TitleClosesTable(s: State, c: Chunk)
    requires Consistent(s) && WellFormed(c) && IsNewTableTitle(c.pageText)
    requires Step(s, c).Some?
    ensures Step(s, c).value.allData == Closed(s)
    ensures Step(s, c).value.title == c.pageText && Step(s, c).value.current.Some?
    ensures |c.rows| > 0
    ensures Step(s, c).value.current == Annotate(Frame(CleanRows(c.rows)[0], CleanRows(c.rows)[1..]), c.pageText)
    ensures var rows := CleanRows(c.rows);
      |rows| > 1 && |rows[0]| > 0 && rows[0][0] !in rows[0][1..] ==>
        TitleTable(Step(s, c).value.current.value, rows[0], rows[1..], c.pageText)
  {
    var rows := CleanRows(c.rows);
    if |rows| > 1 && |rows[0]| > 0 && rows[0][0] !in rows[0][1..] {
      var f := Frame(rows[0], rows[1..]);
      assert SelectDated(f) == Some(Frame(f.columns, DatedRows(f.rows)));
      AnnotateKeepsDatedRows(f, c.pageText);
      assert Step(s, c).value.current.value == Annotate(f, c.pageText).value;
    }
  }

  /** t is the header h behind 'Refeição' and 'Título', over exactly the
      rows of body whose date cell is accepted, each behind the meal name
      and the title, with its missing values filled. */
  predicate TitleTable(t: Frame, h: seq<Cell>, body: seq<seq<Cell>>, title: Cell)
    requires forall i :: 0 <= i < |body| ==> |body[i]| > 0
  {
    && t.columns == [Text(MealLabel), Text(TitleLabel)] + h
    && (forall i :: 0 <= i < |body| && IsValidNumericDate(body[i][0]) ==>
          [Text(MealName), title] + FillRow(body[i]) in t.rows)
    && (forall k :: 0 <= k < |t.rows| ==>
          exists i :: 0 <= i < |body| && IsValidNumericDate(body[i][0]) && t.rows[k] == [Text(MealName), title] + FillRow(body[i]))
  }

  /** Chunks before the first title are dropped: the loop is still in its
      initial state after them. */
  lemma {:induction false} LeadingChunksSkipped(chunks: seq<Chunk>, n: nat)
    requires forall i :: 0 <= i < |chunks| ==> WellFormed(chunks[i])
    requires n <= |chunks| && forall i :: 0 <= i < n ==> !IsNewTableTitle(chunks[i].pageText)
    ensures Run(chunks[..n]) == Some(Start)
    decreases n
  {
    if n > 0 {
      assert chunks[..n][..n - 1] == chunks[..n - 1];
      LeadingChunksSkipped(chunks, n - 1);
    }
  }

  /** Without any section title the result is an empty frame. */
  lemma NoTitleGivesEmpty(chunks: seq<Chunk>)
    requires forall i :: 0 <= i < |chunks| ==> WellFormed(chunks[i])
    requires forall i :: 0 <= i < |chunks| ==> !IsNewTableTitle(chunks[i].pageText)
    ensures Segment(chunks) == Some(Frame([], []))
  {
    LeadingChunksSkipped(chunks, |chunks|);
    assert chunks[..|chunks|] == chunks;
  }

  /** The chunks' own labels never matter, only how many there are: the
      relabelling by `make_unique_columns` is always overwritten. */
  lemma {:induction false} LabelsIrrelevant(chunks: seq<Chunk>, others: seq<Chunk>)
    requires forall i :: 0 <= i < |chunks| ==> WellFormed(chunks[i])
    requires |others| == |chunks|
    requires forall i :: 0 <= i < |chunks| ==>
      others[i].rows == chunks[i].rows && others[i].pageText == chunks[i].pageText
      && |others[i].labels| == |chunks[i].labels|
    ensures forall i :: 0 <= i < |others| ==> WellFormed(others[i])
    ensures Run(others) == Run(chunks)
    decreases |chunks|
  {
    if |chunks| > 0 {
      var n := |chunks| - 1;
      LabelsIrrelevant(chunks[..n], others[..n]);
    }
  }

  /** Every row of every annotated frame carries the meal name and a
      section title under its first two labels. */
  predicate RowsCarryTitles(rows: seq<seq<Cell>>, width: nat) {
    forall i :: 0 <= i < |rows| ==>
      |rows[i]| == width && |rows[i]| >= 2 && rows[i][0] == Text(MealName) && IsNewTableTitle(rows[i][1])
  }

  /** Concatenating annotated tables with equal headers keeps the header,
      and every row, being as wide as the header, starts with the meal name
      and a section title. (Which rows they are is ConcatFramesRows.) */
  lemma ConcatSameShape(frames: seq<Frame>)
    requires |frames| > 0 && forall k :: 0 <= k < |frames| ==> Annotated(frames[k])
    requires forall k :: 0 <= k < |frames| ==> Rectangular(frames[k])
    requires SameColumns(frames)
    ensures ConcatFrames(frames).Some?
    ensures ConcatFrames(frames).value.columns == frames[0].columns
    ensures RowsCarryTitles(ConcatFrames(frames).value.rows, |frames[0].columns|)
  {
    var f := ConcatFrames(frames).value;
    var parts := Bodies(frames);
    forall i | 0 <= i < |f.rows|
      ensures |f.rows[i]| == |f.columns| && |f.rows[i]| >= 2
      ensures f.rows[i][0] == Text(MealName) && IsNewTableTitle(f.rows[i][1])
    {
      FlattenMember(parts, i);
      var k, j :| 0 <= k < |parts| && 0 <= j < |parts[k]| && f.rows[i] == parts[k][j];
      assert f.rows[i] == frames[k].rows[j];
      assert AnnotatedRow(frames[k].rows[j]);
    }
  }

  /** An annotated row moved under labels that start with 'Refeição' and
      'Título' keeps its meal name and title in front. */
  lemma AlignAnnotatedRow(row: seq<Cell>, columns: seq<Cell>, labels: seq<Cell>)
    requires |row| == |columns| && |columns| >= 2 && AnnotatedRow(row)
    requires columns[0] == Text(MealLabel) && columns[1] == Text(TitleLabel)
    requires |labels| >= 2 && labels[0] == Text(MealLabel) && labels[1] == Text(TitleLabel)
    ensures var r := AlignRow(row, columns, labels);
      r[0] == Text(MealName) && IsNewTableTitle(r[1])
  {
    assert Text(MealLabel) != Text(TitleLabel) by {
      assert MealLabel[0] != TitleLabel[0];
    }
    assert columns[..0] == [];
    assert IndexOf(columns, Text(MealLabel)) == 0;
    assert columns[..1] == [Text(MealLabel)];
    assert IndexOf(columns, Text(TitleLabel)) == 1;
  }

  /** The union of the labels of annotated tables begins with 'Refeição'
      and 'Título'. */
  lemma AllLabelsStart(frames: seq<Frame>)
    requires |frames| > 0 && Annotated(frames[0])
    ensures |Unique(AllLabels(frames))| >= 2
    ensures Unique(AllLabels(frames))[..2] == [Text(MealLabel), Text(TitleLabel)]
  {
    var both := [Text(MealLabel), Text(TitleLabel)];
    assert Text(MealLabel) != Text(TitleLabel) by {
      assert MealLabel[0] != TitleLabel[0];
    }
    var heads := Headers(frames);
    var rest := frames[0].columns[2..] + Flatten(heads[1..]);
    FlattenFirst(heads);
    assert frames[0].columns == both + frames[0].columns[2..];
    assert AllLabels(frames) == both + rest;
    UniquePrefix(both, rest);
  }

  /** Concatenating annotated tables whose headers differ puts 'Refeição'
      and 'Título' first, and every row, being as wide as the union of the
      labels, starts with the meal name and a section title. (Which rows
      they are is ConcatFramesRows.) */
  lemma ConcatAlignedShape(frames: seq<Frame>)
    requires |frames| > 0 && forall k :: 0 <= k < |frames| ==> Annotated(frames[k])
    requires forall k :: 0 <= k < |frames| ==> Rectangular(frames[k])
    requires !SameColumns(frames) && ConcatFrames(frames).Some?
    ensures |ConcatFrames(frames).value.columns| >= 2
    ensures ConcatFrames(frames).value.columns[..2] == [Text(MealLabel), Text(TitleLabel)]
    ensures RowsCarryTitles(ConcatFrames(frames).value.rows, |ConcatFrames(frames).value.columns|)
  {
    var f := ConcatFrames(frames).value;
    var labels := Unique(AllLabels(frames));
    AllLabelsStart(frames);
    assert labels[0] == labels[..2][0] == Text(MealLabel);
    assert labels[1] == labels[..2][1] == Text(TitleLabel);
    assert f.columns == labels;
    var parts := AlignAll(frames, labels);
    forall i | 0 <= i < |f.rows|
      ensures |f.rows[i]| == |f.columns| && |f.rows[i]| >= 2
      ensures f.rows[i][0] == Text(MealName) && IsNewTableTitle(f.rows[i][1])
    {
      FlattenMember(parts, i);
      var k, j :| 0 <= k < |parts| && 0 <= j < |parts[k]| && f.rows[i] == parts[k][j];
      var g := frames[k];
      assert Annotated(g);
      assert f.rows[i] == AlignRow(g.rows[j], g.columns, labels);
      assert AnnotatedRow(g.rows[j]);
      AlignAnnotatedRow(g.rows[j], g.columns, labels);
    }
  }

  /** What the j-th row of frame k becomes in the concatenation: itself
      when all headers are equal, otherwise moved under the labels. */
  function PlacedRow(frames: seq<Frame>, k: nat, j: nat, labels: seq<Cell>): seq<Cell>
    requires k < |frames| && Rectangular(frames[k]) && j < |frames[k].rows|
  {
    if SameColumns(frames) then frames[k].rows[j] else AlignRow(frames[k].rows[j], frames[k].columns, labels)
  }

  /** row is a row of one of the frames, placed under the labels. */
  predicate FromFrames(row: seq<Cell>, frames: seq<Frame>, labels: seq<Cell>)
    requires forall k :: 0 <= k < |frames| ==> Rectangular(frames[k])
  {
    exists k, j :: 0 <= k < |frames| && 0 <= j < |frames[k].rows| && row == PlacedRow(frames, k, j, labels)
  }

  /** The rows of the concatenation are exactly the rows of the frames, each
      placed under the labels of the result. */
  lemma ConcatFramesRows(frames: seq<Frame>)
    requires |frames| > 0 && forall k :: 0 <= k < |frames| ==> Rectangular(frames[k])
    requires ConcatFrames(frames).Some?
    ensures forall row :: row in ConcatFrames(frames).value.rows <==> FromFrames(row, frames, ConcatFrames(frames).value.columns)
  {
    var f := ConcatFrames(frames).value;
    var parts := if SameColumns(frames) then Bodies(frames) else AlignAll(frames, f.columns);
    assert f.rows == Flatten(parts);
    assert forall k, j :: 0 <= k < |frames| && 0 <= j < |frames[k].rows| ==>
      |parts[k]| == |frames[k].rows| && parts[k][j] == PlacedRow(frames, k, j, f.columns);
    forall row | row in f.rows
      ensures FromFrames(row, frames, f.columns)
    {
      var i :| 0 <= i < |f.rows| && f.rows[i] == row;
      FlattenMember(parts, i);
      var k, j :| 0 <= k < |parts| && 0 <= j < |parts[k]| && f.rows[i] == parts[k][j];
      assert row == PlacedRow(frames, k, j, f.columns);
    }
    forall row | FromFrames(row, frames, f.columns)
      ensures row in f.rows
    {
      var k, j :| 0 <= k < |frames| && 0 <= j < |frames[k].rows| && row == PlacedRow(frames, k, j, f.columns);
      FlattenContains(parts, k, j);
    }
  }

  /** `drop_duplicates` keeps the order of first appearances: of two rows
      of the result, the earlier one appears in the concatenation before
      any copy of the later one. */
  lemma FinishKeepsFirstOrder(s: State, i: nat, j: nat)
    requires Consistent(s) && |Closed(s)| > 0 && Finish(s).Some?
    requires i < j < |Finish(s).value.rows|
    ensures ConcatFrames(Closed(s)).Some?
    ensures var all := ConcatFrames(Closed(s)).value.rows;
      exists a :: 0 <= a < |all| && all[a] == Finish(s).value.rows[i] && Finish(s).value.rows[j] !in all[..a + 1]
  {
    var all := ConcatFrames(Closed(s)).value.rows;
    assert Finish(s).value.rows == Unique(all);
    UniqueKeepsFirstOrder(all, i, j);
  }

  /** `drop_duplicates` removes repeated rows and nothing else: the result
      holds each row of the concatenation exactly once. */
  lemma FinishKeepsEachRowOnce(s: State)
    requires Consistent(s) && |Closed(s)| > 0 && Finish(s).Some?
    ensures ConcatFrames(Closed(s)).Some?
    ensures forall row :: row in Finish(s).value.rows <==> row in ConcatFrames(Closed(s)).value.rows
    ensures Distinct(Finish(s).value.rows)
  {
    var all := ConcatFrames(Closed(s)).value.rows;
    var kept := Finish(s).value.rows;
    assert kept == Unique(all);
    forall row | row in all
      ensures row in kept
    {
      var i :| 0 <= i < |all| && all[i] == row;
    }
  }

  /** The result of a successful run: either the empty frame (no table was
      ever opened) or a frame whose first two labels are 'Refeição' and
      'Título', whose rows are all distinct, and each of whose rows carries
      the meal name and a section title. Its rows are exactly the rows of
      the tables the loop built, each placed under the result's labels. */
  lemma SegmentShape(chunks: seq<Chunk>)
    requires forall i :: 0 <= i < |chunks| ==> WellFormed(chunks[i])
    requires Segment(chunks).Some?
    ensures Distinct(Segment(chunks).value.rows)
    ensures Segment(chunks).value == Frame([], [])
      || (|Segment(chunks).value.columns| >= 2
          && Segment(chunks).value.columns[..2] == [Text(MealLabel), Text(TitleLabel)])
    ensures RowsCarryTitles(Segment(chunks).value.rows, |Segment(chunks).value.columns|)
    ensures |Closed(Run(chunks).value)| == 0 ==> Segment(chunks).value == Frame([], [])
    ensures forall row :: row in Segment(chunks).value.rows <==>
      FromFrames(row, Closed(Run(chunks).value), Segment(chunks).value.columns)
  {
    var st := Run(chunks).value;
    var frames := Closed(st);
    if |frames| > 0 {
      FinishKeepsEachRowOnce(st);
      ConcatFramesRows(frames);
      var f := Segment(chunks).value;
      var g := ConcatFrames(frames).value;
      if SameColumns(frames) {
        ConcatSameShape(frames);
        assert frames[0].columns[..2] == [Text(MealLabel), Text(TitleLabel)];
      } else {
        ConcatAlignedShape(frames);
      }
      forall i | 0 <= i < |f.rows|
        ensures |f.rows[i]| == |f.columns| && |f.rows[i]| >= 2
        ensures f.rows[i][0] == Text(MealName) && IsNewTableTitle(f.rows[i][1])
      {
        assert f.rows[i] in g.rows;
      }
    }
  }
}
