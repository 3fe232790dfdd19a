/** The validation and transformation logic of the course upload handler
    (src/controllers/course-controller.js). A parsed CSV row is a map from column
    name to the text of its cell. The required-field loop, the record builder and the
    "no valid course" check are modelled as three separate operations, exactly as the
    code writes them, oddities included:
    - `category` is required,
    - the test on `instructor` is doubly negated, so a row that HAS an instructor fails,
    - a failing row is reported as "Row i+1" for its zero-based index i. */
module CourseUpload {

  import opened Wrappers
  import opened JsString

  /** One parsed CSV row: column header to cell text. */
  type Row = map<string, string>

  /** `row.column` is truthy: the column exists and its text is not empty
      (the only falsy string in JavaScript is ""). */
  predicate Present(row: Row, column: string) {
    column in row && row[column] != ""
  }

  /** The columns the loop insists on. */
  const RequiredColumns: set<string> := {"course_id", "title", "category", "duration"}

  /** The condition of the `if` in the validation loop, as written: `course_id`,
      `title`, `category` or `duration` is missing, or `instructor` is present. */
  predicate RowFlagged(row: Row) {
    !Present(row, "course_id") || !Present(row, "title") || !Present(row, "category") ||
    Present(row, "instructor") || !Present(row, "duration")
  }

  /** The error text the loop pushes for the row with (one-based) number n. */
  function MissingFieldMessage(n: nat): (m: string)
    ensures |m| >= 29 && m[..4] == "Row " && m[|m| - 24..] == ": Missing required field"
    ensures AllDigits(m[4..|m| - 24])
  {
    var m := "Row " + Decimal(n) + ": Missing required field";
    assert m[4..|m| - 24] == Decimal(n);
    m
  }

  /** The numbers of the flagged rows among `rows`, in file order, when the first of
      `rows` is row number offset + 1. */
  function FailingRowsFrom(rows: seq<Row>, offset: nat): (ns: seq<nat>)
    ensures |ns| <= |rows|
  {
    if rows == [] then []
    else (if RowFlagged(rows[0]) then [offset + 1] else []) + FailingRowsFrom(rows[1..], offset + 1)
  }

  /** The row numbers (zero-based index plus one) of the flagged rows of a file. */
  function FailingRows(rows: seq<Row>): seq<nat> {
    FailingRowsFrom(rows, 0)
  }

  /** The `errors` array the loop leaves behind after visiting `rows`. */
  function RowErrors(rows: seq<Row>): (errs: seq<string>)
    ensures |errs| <= |rows|
  {
    if rows == [] then []
    else
      var last := |rows| - 1;
      RowErrors(rows[..last]) + (if RowFlagged(rows[last]) then [MissingFieldMessage(|rows|)] else [])
  }

  /** The required-field loop: visits every row in order, records one message for each
      flagged row and moves on (`continue`) without ever stopping early. */
  method ValidateRows(rows: seq<Row>) returns (errors: seq<string>)
    ensures errors == RowErrors(rows)
    ensures |errors| <= |rows|
  {
    errors := [];
    for i := 0 to |rows|
      invariant errors == RowErrors(rows[..i])
    {
      var row := rows[i];
      assert rows[..i + 1][..i] == rows[..i];
      if RowFlagged(row) {
        errors := errors + [MissingFieldMessage(i + 1)];
        continue;
      }
    }
    assert rows[..|rows|] == rows;
  }

  /** Every reported number is the number of one of the rows. */
  lemma {:induction false} FailingRowsBounds(rows: seq<Row>, offset: nat)
    ensures forall k :: 0 <= k < |FailingRowsFrom(rows, offset)| ==>
      offset < FailingRowsFrom(rows, offset)[k] <= offset + |rows|
  {
    if rows != [] {
      FailingRowsBounds(rows[1..], offset + 1);
    }
  }

  /** Row number offset + i + 1 is reported exactly when the row at index i is flagged. */
  lemma {:induction false} FailingRowsExact(rows: seq<Row>, offset: nat, i: nat)
    requires i < |rows|
    ensures offset + i + 1 in FailingRowsFrom(rows, offset) <==> RowFlagged(rows[i])
  {
    var head := if RowFlagged(rows[0]) then [offset + 1] else [];
    var rest := FailingRowsFrom(rows[1..], offset + 1);
    assert FailingRowsFrom(rows, offset) == head + rest;
    FailingRowsBounds(rows[1..], offset + 1);
    if i == 0 {
      assert offset + 1 !in rest;
    } else {
      FailingRowsExact(rows[1..], offset + 1, i - 1);
      assert rows[1..][i - 1] == rows[i];
    }
  }

  /** Failing rows are reported in strictly increasing row order. */
  lemma {:induction false} FailingRowsIncreasing(rows: seq<Row>, offset: nat)
    ensures forall a, b :: 0 <= a < b < |FailingRowsFrom(rows, offset)| ==>
      FailingRowsFrom(rows, offset)[a] < FailingRowsFrom(rows, offset)[b]
  {
    if rows != [] {
      FailingRowsIncreasing(rows[1..], offset + 1);
      FailingRowsBounds(rows[1..], offset + 1);
    }
  }

  /** A failing row never stops the loop: the rows after a given point are reported as
      that part of the file on its own would be, numbered on from the rows before it. */
  lemma {:induction false} FailingRowsConcat(a: seq<Row>, b: seq<Row>, offset: nat)
    ensures FailingRowsFrom(a + b, offset) ==
      FailingRowsFrom(a, offset) + FailingRowsFrom(b, offset + |a|)
  {
    if a == [] {
      assert a + b == b;
    } else {
      assert (a + b)[0] == a[0];
      assert (a + b)[1..] == a[1..] + b;
      FailingRowsConcat(a[1..], b, offset + 1);
    }
  }

  /** Where the numbering starts only shifts the numbers: the same rows are reported. */
  lemma {:induction false} FailingRowsOffset(rows: seq<Row>, offset: nat)
    ensures |FailingRowsFrom(rows, offset)| == |FailingRows(rows)|
    ensures forall k :: 0 <= k < |FailingRows(rows)| ==>
      FailingRowsFrom(rows, offset)[k] == FailingRows(rows)[k] + offset
  {
    if rows != [] {
      FailingRowsOffset(rows[1..], offset + 1);
      FailingRowsOffset(rows[1..], 1);
    }
  }

  /** The reports for the later part of a file are that part's own reports, numbered
      on from the rows before it. */
  lemma FailingRowsOfSuffix(a: seq<Row>, b: seq<Row>)
    ensures |FailingRows(a + b)| == |FailingRows(a)| + |FailingRows(b)|
    ensures forall k :: 0 <= k < |FailingRows(b)| ==>
      FailingRows(a + b)[|FailingRows(a)| + k] == FailingRows(b)[k] + |a|
  {
    FailingRowsConcat(a, b, 0);
    FailingRowsOffset(b, |a|);
  }

  /** Appending one row appends its number when, and only when, it is flagged. */
  lemma FailingRowsSnoc(rows: seq<Row>, row: Row)
    ensures FailingRows(rows + [row]) ==
      FailingRows(rows) + (if RowFlagged(row) then [|rows| + 1] else [])
  {
    FailingRowsConcat(rows, [row], 0);
    assert FailingRowsFrom([row], |rows|) == (if RowFlagged(row) then [|rows| + 1] else []) + [];
  }

  /** The i-th error message names the i-th failing row; there is one message per
      failing row and none for a passing row. */
  lemma {:induction false} ErrorsNameFailingRows(rows: seq<Row>)
    ensures |RowErrors(rows)| == |FailingRows(rows)|
    ensures forall k :: 0 <= k < |RowErrors(rows)| ==>
      RowErrors(rows)[k] == MissingFieldMessage(FailingRows(rows)[k])
  {
    if rows != [] {
      var init := rows[..|rows| - 1];
      ErrorsNameFailingRows(init);
      assert rows == init + [rows[|rows| - 1]];
      FailingRowsSnoc(init, rows[|rows| - 1]);
    }
  }

  /** The digits between "Row " and the colon read back as the row number. */
  lemma MissingFieldMessageNamesRow(n: nat)
    ensures var m := MissingFieldMessage(n); DecimalValue(m[4..|m| - 24]) == n
  {
    var m := MissingFieldMessage(n);
    assert m[4..|m| - 24] == Decimal(n);
    DecimalRoundTrip(n);
  }

  /** Distinct row numbers give distinct messages, so a message identifies its row. */
  lemma MissingFieldMessageInjective(m: nat, n: nat)
    requires MissingFieldMessage(m) == MissingFieldMessage(n)
    ensures m == n
  {
    var dm, dn := Decimal(m), Decimal(n);
    var suffix := ": Missing required field";
    assert MissingFieldMessage(m) == "Row " + dm + suffix;
    assert MissingFieldMessage(n) == "Row " + dn + suffix;
    assert |dm| == |dn|;
    assert dm == MissingFieldMessage(m)[4..4 + |dm|];
    assert dn == MissingFieldMessage(n)[4..4 + |dn|];
    DecimalInjective(m, n);
  }

  /** When each message names the matching number, a message is present exactly when
      its number is. */
  lemma MessageInIffNumberIn(errs: seq<string>, ns: seq<nat>, n: nat)
    requires |errs| == |ns|
    requires forall k :: 0 <= k < |errs| ==> errs[k] == MissingFieldMessage(ns[k])
    ensures MissingFieldMessage(n) in errs <==> n in ns
  {
    if MissingFieldMessage(n) in errs {
      var k :| 0 <= k < |errs| && errs[k] == MissingFieldMessage(n);
      MissingFieldMessageInjective(n, ns[k]);
    }
    if n in ns {
      var k :| 0 <= k < |ns| && ns[k] == n;
      assert errs[k] == MissingFieldMessage(n);
    }
  }

  /** Row number i + 1 is a failing row number exactly when the row at index i is flagged. */
  lemma FailingRowIffFlagged(rows: seq<Row>, i: nat)
    requires i < |rows|
    ensures i + 1 in FailingRows(rows) <==> RowFlagged(rows[i])
  {
    FailingRowsExact(rows, 0, i);
  }

  /** A row number is named in the error list exactly when it is a failing row number. */
  lemma ErrorNamesIffFailing(rows: seq<Row>, n: nat)
    ensures MissingFieldMessage(n) in RowErrors(rows) <==> n in FailingRows(rows)
  {
    ErrorsNameFailingRows(rows);
    MessageInIffNumberIn(RowErrors(rows), FailingRows(rows), n);
  }

  /** The error list contains "Row i+1: Missing required field" exactly when the row at
      index i is flagged: every row is checked, whatever happened to the rows before it. */
  lemma ErrorForRowIffFlagged(rows: seq<Row>, i: nat)
    requires i < |rows|
    ensures MissingFieldMessage(i + 1) in RowErrors(rows) <==> RowFlagged(rows[i])
  {
    ErrorNamesIffFailing(rows, i + 1);
    FailingRowIffFlagged(rows, i);
  }

  /** A row missing `course_id`, `title`, `category` or `duration` (or holding an empty
      cell there) is reported. */
  lemma MissingRequiredColumnReported(rows: seq<Row>, i: nat, column: string)
    requires i < |rows|
    requires column in RequiredColumns
    requires !Present(rows[i], column)
    ensures MissingFieldMessage(i + 1) in RowErrors(rows)
  {
    ErrorForRowIffFlagged(rows, i);
  }

  /** Because of the double negation, a row that names an instructor is reported too,
      even when every other column is filled in. */
  lemma InstructorRowReported(rows: seq<Row>, i: nat)
    requires i < |rows|
    requires Present(rows[i], "instructor")
    ensures MissingFieldMessage(i + 1) in RowErrors(rows)
  {
    ErrorForRowIffFlagged(rows, i);
  }

  /** The canonical course record the handler builds from one row (duration aside). */
  datatype CourseRecord = CourseRecord(
    course_id: string,
    title: string,
    category: string,
    description: string,
    instructor: string)

  /** `row.description ? row.description.toString().trim() : ""`. */
  function Description(row: Row): (d: string)
    ensures IsTrimmed(d)
    ensures !Present(row, "description") ==> d == ""
  {
    if Present(row, "description") then Trim(row["description"]) else ""
  }

  /** The object literal of the handler for one row. `row.x.toString()` on a column the
      row does not have throws a TypeError, which becomes `None`; `description` falls
      back to "" when it is missing or empty. Every text is trimmed. */
  function BuildRecord(row: Row): (r: Option<CourseRecord>)
    ensures r.Some? <==> "course_id" in row && "title" in row && "category" in row && "instructor" in row
    ensures r.Some? ==>
      r.value.course_id == Trim(row["course_id"]) && r.value.title == Trim(row["title"]) &&
      r.value.category == Trim(row["category"]) && r.value.instructor == Trim(row["instructor"]) &&
      r.value.description == Description(row)
    ensures r.Some? ==>
      IsTrimmed(r.value.course_id) && IsTrimmed(r.value.title) && IsTrimmed(r.value.category) &&
      IsTrimmed(r.value.description) && IsTrimmed(r.value.instructor)
  {
    if "course_id" in row && "title" in row && "category" in row && "instructor" in row then
      Some(CourseRecord(
        Trim(row["course_id"]),
        Trim(row["title"]),
        Trim(row["category"]),
        Description(row),
        Trim(row["instructor"])))
    else None
  }

  /** The record's `description` is "" exactly when the column is missing, empty or
      only whitespace; otherwise it is the trimmed cell. */
  lemma BuildRecordDescription(row: Row)
    requires "course_id" in row && "title" in row && "category" in row && "instructor" in row
    ensures BuildRecord(row).value.description == "" <==>
      !Present(row, "description") || AllWhitespace(row["description"])
    ensures Present(row, "description") ==>
      BuildRecord(row).value.description == Trim(row["description"])
  {
    if "description" in row {
      TrimEmptyIffWhitespace(row["description"]);
    }
  }

  /** The row with every cell trimmed. */
  function TrimCells(row: Row): (t: Row)
    ensures t.Keys == row.Keys
    ensures forall c :: c in row ==> t[c] == Trim(row[c])
  {
    map c | c in row :: Trim(row[c])
  }

  /** A trimmed cell trims to itself. */
  lemma TrimCellStable(row: Row, c: string)
    requires c in row
    ensures c in TrimCells(row) && Trim(TrimCells(row)[c]) == Trim(row[c])
  {
    TrimIdempotent(row[c]);
  }

  /** Trimming the description cell first does not change the description. */
  lemma DescriptionIgnoresPadding(row: Row)
    ensures Description(TrimCells(row)) == Description(row)
  {
    if "description" in row {
      var d := row["description"];
      var t := TrimCells(row);
      assert t["description"] == Trim(d);
      TrimCellStable(row, "description");
      if d == "" {
        assert Trim(d) == "" by {
          assert TrimStart(d) == "";
        }
      }
    }
  }

  /** Trimming every cell of a row first does not change the record built from it. */
  lemma BuildRecordIgnoresPadding(row: Row)
    ensures BuildRecord(TrimCells(row)) == BuildRecord(row)
  {
    if "course_id" in row && "title" in row && "category" in row && "instructor" in row {
      var r, r' := BuildRecord(row).value, BuildRecord(TrimCells(row)).value;
      assert r'.course_id == r.course_id by { TrimCellStable(row, "course_id"); }
      assert r'.title == r.title by { TrimCellStable(row, "title"); }
      assert r'.category == r.category by { TrimCellStable(row, "category"); }
      assert r'.instructor == r.instructor by { TrimCellStable(row, "instructor"); }
      assert r'.description == r.description by { DescriptionIgnoresPadding(row); }
    }
  }

  /** A row the loop lets through has no usable instructor: building its record either
      throws (the column is absent) or yields an empty instructor. */
  lemma PassingRowHasNoInstructor(row: Row)
    requires !RowFlagged(row)
    ensures BuildRecord(row).None? || BuildRecord(row).value.instructor == ""
  {
    if "instructor" in row {
      assert row["instructor"] == "";
      assert TrimStart("") == "";
    }
  }

  /** What the handler does once the records are built. */
  datatype UploadCheck =
    | NoValidCourse(status: nat, message: string, errors: seq<string>)
    | Proceed

  /** The empty-result check: with no record built, the upload is answered with
      status 400 and the collected errors; otherwise the handler carries on. */
  function CheckCourses(courses: seq<CourseRecord>, errors: seq<string>): (r: UploadCheck)
    ensures r.NoValidCourse? <==> courses == []
    ensures r.NoValidCourse? ==> r.status == 400 && r.errors == errors
  {
    if |courses| == 0 then NoValidCourse(400, "No valid course dound in CSV!", errors)
    else Proceed
  }
}
