/**
 * `ride_importer.py`: every line of the spreadsheet export is split on
 * commas; rows whose fourth field is `Active` are old entries and are
 * skipped; the others become rides with the stripped car number, the
 * stripped, lower-cased line code and the date re-rendered `%m/%d/%Y`. An
 * exception on any row ends the run before anything is appended.
 */
module RideImporter {
  import opened Results
  import opened Text
  import opened Rides
  import opened DateConverter

  /** What goes wrong on one row. */
  datatype RowError =
    | MissingField(index: nat)   // `IndexError`: `line_data[index]` does not exist
    | BadDate(text: string)      // `ValueError` from `strptime(line_data[1], "%m/%d/%Y")`

  /** The exception that ends a run, with the position of the row that raised it. */
  datatype ImportFailure = ImportFailure(row: nat, cause: RowError)

  /** The marker of rows already in the file (line 20). */
  const ActiveMarker: string := "Active"

  /**
   * Lines 15-30 for one line: `Ok(None)` when the row is skipped, `Ok(Some(r))`
   * when it yields the ride `r`. The date of field 1 is parsed before field 3
   * is looked at, so a bad date raises even on a row that would be skipped.
   */
  function ParseRow(line: string): Result<Option<Ride>, RowError> {
    var f := Split(line, ',');
    if |f| < 2 then Err(MissingField(1))
    else
      match ParseSlashDate(f[1])
      case None => Err(BadDate(f[1]))
      case Some(d) =>
        if |f| < 4 then Err(MissingField(3))
        else if Strip(f[3]) == ActiveMarker then Ok(None)
        else Ok(Some(Ride(Strip(f[0]), Lower(Strip(f[3])), FormatSlash(d))))
  }

  /** What one row gives: a ride, a skip (`None`), or the error it raises. */
  type RowOutcome = Result<Option<Ride>, RowError>

  /**
   * The outcome of every line, in order. The ensures restate the
   * comprehension element by element, so that callers get it without
   * unfolding.
   */
  function RowOutcomes(lines: seq<string>): (outcomes: seq<RowOutcome>)
    ensures |outcomes| == |lines|
    ensures forall i :: 0 <= i < |lines| ==> outcomes[i] == ParseRow(lines[i])
  {
    seq(|lines|, i requires 0 <= i < |lines| => ParseRow(lines[i]))
  }

  /**
   * The accumulation of lines 14-30: rides are appended in row order, skips
   * add nothing, and the first row that raises ends the run.
   */
  function Collect(outcomes: seq<RowOutcome>): Result<seq<Ride>, ImportFailure> {
    if outcomes == [] then Ok([])
    else
      match Collect(outcomes[..|outcomes| - 1])
      case Err(e) => Err(e)
      case Ok(rides) =>
        match outcomes[|outcomes| - 1]
        case Err(cause) => Err(ImportFailure(|outcomes| - 1, cause))
        case Ok(None) => Ok(rides)
        case Ok(Some(r)) => Ok(rides + [r])
  }

  /**
   * Lines 14-30 over the whole file. Each element of `lines` is a line as
   * `readlines()` returns it, trailing `\n` included, so the newline is part
   * of the last field.
   */
  function Import(lines: seq<string>): Result<seq<Ride>, ImportFailure> {
    Collect(RowOutcomes(lines))
  }

  /** Lines 14-30: the loop that fills `rides_to_add`. */
  method ImportRows(lines: seq<string>) returns (result: Result<seq<Ride>, ImportFailure>)
    ensures result == Import(lines)
  {
    ghost var outcomes := RowOutcomes(lines);
    var ridesToAdd: seq<Ride> := [];
    for i := 0 to |lines|
      invariant Collect(outcomes[..i]) == Ok(ridesToAdd)
    {
      assert outcomes[..i + 1][..i] == outcomes[..i];
      assert outcomes[i] == ParseRow(lines[i]);
      var lineData := Split(lines[i], ',');
      if |lineData| < 2 {
        CollectErrorSticks(outcomes, i + 1);
        return Err(ImportFailure(i, MissingField(1)));
      }
      var carNo := Strip(lineData[0]);
      var importedDate := ParseSlashDate(lineData[1]);
      if importedDate.None? {
        CollectErrorSticks(outcomes, i + 1);
        return Err(ImportFailure(i, BadDate(lineData[1])));
      }
      var date := FormatSlash(importedDate.value);
      if |lineData| < 4 {
        CollectErrorSticks(outcomes, i + 1);
        return Err(ImportFailure(i, MissingField(3)));
      }
      if Strip(lineData[3]) == ActiveMarker {
        continue;
      }
      var line := Lower(Strip(lineData[3]));
      ridesToAdd := ridesToAdd + [Ride(carNo, line, date)];
    }
    assert outcomes[..|lines|] == outcomes;
    result := Ok(ridesToAdd);
  }

  /** Once a row has raised, the run ends with that error whatever follows. */
  lemma {:induction false} CollectErrorSticks(outcomes: seq<RowOutcome>, k: nat)
    requires k <= |outcomes| && Collect(outcomes[..k]).Err?
    ensures Collect(outcomes) == Collect(outcomes[..k])
  {
    if k < |outcomes| {
      var init := outcomes[..|outcomes| - 1];
      assert init[..k] == outcomes[..k];
      CollectErrorSticks(init, k);
    } else {
      assert outcomes[..k] == outcomes;
    }
  }

  /**
   * A produced ride carries field 0 stripped as its number, field 3 stripped
   * and lower-cased as its line, and field 1's date written zero-padded: the
   * same date `strptime` read, in the form `strftime` gives back. Its line
   * field was not exactly `Active`.
   */
  lemma RowRecord(line: string)
    requires ParseRow(line).Ok? && ParseRow(line).value.Some?
    ensures var f := Split(line, ',');
            var r := ParseRow(line).value.value;
            && |f| >= 4
            && r.carNo == Strip(f[0])
            && r.line == Lower(Strip(f[3]))
            && Strip(f[3]) != ActiveMarker
            && ParseSlashDate(f[1]).Some?
            && r.date == FormatSlash(ParseSlashDate(f[1]).value)
            && ParseSlashDate(r.date) == ParseSlashDate(f[1])
  {
    var f := Split(line, ',');
    ParseFormatSlash(ParseSlashDate(f[1]).value);
  }

  /** A row is skipped exactly when it is well formed and its stripped field 3 is exactly `Active`. */
  lemma RowSkipped(line: string)
    ensures var f := Split(line, ',');
            ParseRow(line) == Ok(None) <==>
              |f| >= 4 && ParseSlashDate(f[1]).Some? && Strip(f[3]) == ActiveMarker
  {
  }

  /**
   * The ways a row raises, in the order the code meets them: no field 1,
   * then a field 1 that is not a date, then no field 3.
   */
  lemma RowErrors(line: string)
    ensures var f := Split(line, ',');
            && (|f| < 2 ==> ParseRow(line) == Err(MissingField(1)))
            && (|f| >= 2 && ParseSlashDate(f[1]).None? ==> ParseRow(line) == Err(BadDate(f[1])))
            && (|f| >= 2 && ParseSlashDate(f[1]).Some? && |f| < 4 ==> ParseRow(line) == Err(MissingField(3)))
            && (ParseRow(line).Ok? <==> |f| >= 4 && ParseSlashDate(f[1]).Some?)
  {
  }

  /** The accumulation succeeds exactly when no row raises. */
  lemma {:induction false} CollectSucceedsIff(outcomes: seq<RowOutcome>)
    ensures Collect(outcomes).Ok? <==> forall i :: 0 <= i < |outcomes| ==> outcomes[i].Ok?
  {
    if outcomes != [] {
      var init := outcomes[..|outcomes| - 1];
      CollectSucceedsIff(init);
      if Collect(init).Ok? && outcomes[|outcomes| - 1].Ok? {
        forall i | 0 <= i < |outcomes| ensures outcomes[i].Ok? {
          if i < |init| { assert outcomes[i] == init[i]; }
        }
      } else if Collect(init).Err? {
        var j :| 0 <= j < |init| && !init[j].Ok?;
        assert outcomes[j] == init[j];
      }
    }
  }

  /** A failed accumulation names the first row that raised, and what it raised. */
  lemma {:induction false} CollectFailsAtFirstBadRow(outcomes: seq<RowOutcome>)
    requires Collect(outcomes).Err?
    ensures var e := Collect(outcomes).error;
            && e.row < |outcomes|
            && outcomes[e.row] == Err(e.cause)
            && forall j :: 0 <= j < e.row ==> outcomes[j].Ok?
  {
    var init := outcomes[..|outcomes| - 1];
    if Collect(init).Err? {
      CollectFailsAtFirstBadRow(init);
      var e := Collect(init).error;
      assert outcomes[e.row] == init[e.row];
      forall j | 0 <= j < e.row ensures outcomes[j].Ok? {
        assert outcomes[j] == init[j];
      }
    } else {
      CollectSucceedsIff(init);
      forall j | 0 <= j < |outcomes| - 1 ensures outcomes[j].Ok? {
        assert outcomes[j] == init[j];
      }
    }
  }

  /** The import succeeds exactly when no line raises; a failure names the first line that does. */
  lemma ImportErrors(lines: seq<string>)
    ensures Import(lines).Ok? <==> forall i :: 0 <= i < |lines| ==> ParseRow(lines[i]).Ok?
    ensures Import(lines).Err? ==>
              var e := Import(lines).error;
              && e.row < |lines|
              && ParseRow(lines[e.row]) == Err(e.cause)
              && forall j :: 0 <= j < e.row ==> ParseRow(lines[j]).Ok?
  {
    var outcomes := RowOutcomes(lines);
    CollectSucceedsIff(outcomes);
    if Import(lines).Err? {
      CollectFailsAtFirstBadRow(outcomes);
    }
  }

  /** The positions of the rows that yield a ride. */
  function ProducingRows(outcomes: seq<RowOutcome>): seq<nat> {
    if outcomes == [] then []
    else
      var last := |outcomes| - 1;
      ProducingRows(outcomes[..last]) + (if outcomes[last].Ok? && outcomes[last].value.Some? then [last] else [])
  }

  /**
   * The produced rides follow the row order: the k-th ride comes from the
   * k-th producing row, those rows increase, and every other row was
   * skipped. So there are as many rides as rows not skipped.
   */
  lemma {:induction false} CollectFollowsRows(outcomes: seq<RowOutcome>)
    requires Collect(outcomes).Ok?
    ensures var rides := Collect(outcomes).value;
            var rows := ProducingRows(outcomes);
            && |rides| == |rows|
            && (forall k :: 0 <= k < |rows| ==> rows[k] < |outcomes| && outcomes[rows[k]] == Ok(Some(rides[k])))
            && (forall k, l :: 0 <= k < l < |rows| ==> rows[k] < rows[l])
            && (forall i :: 0 <= i < |outcomes| && i !in rows ==> outcomes[i] == Ok(None))
  {
    if outcomes != [] {
      var init := outcomes[..|outcomes| - 1];
      CollectFollowsRows(init);
      var rows := ProducingRows(init);
      forall k | 0 <= k < |rows| ensures outcomes[rows[k]] == init[rows[k]] {
      }
      forall i | 0 <= i < |init| ensures outcomes[i] == init[i] {
      }
    }
  }

  /** The same, stated on the lines of the file. */
  lemma ImportFollowsRows(lines: seq<string>)
    requires Import(lines).Ok?
    ensures var rides := Import(lines).value;
            var rows := ProducingRows(RowOutcomes(lines));
            && |rides| == |rows|
            && (forall k :: 0 <= k < |rows| ==> rows[k] < |lines| && ParseRow(lines[rows[k]]) == Ok(Some(rides[k])))
            && (forall k, l :: 0 <= k < l < |rows| ==> rows[k] < rows[l])
            && (forall i :: 0 <= i < |lines| && i !in rows ==> ParseRow(lines[i]) == Ok(None))
  {
    CollectFollowsRows(RowOutcomes(lines));
  }

  /** Four comma-free fields joined by commas split back into those four. */
  lemma SplitFour(a: string, b: string, c: string, d: string)
    requires ',' !in a && ',' !in b && ',' !in c && ',' !in d
    ensures Split(a + "," + b + "," + c + "," + d, ',') == [a, b, c, d]
  {
    SplitNoSep(a, ',');
    SplitSnoc(a, b, ',');
    SplitSnoc(a + "," + b, c, ',');
    SplitSnoc(a + "," + b + "," + c, d, ',');
  }

  /**
   * A line of four comma-free fields with a date in field 1: skipped when
   * field 3 strips to `Active`, otherwise the ride of the stripped car number,
   * the stripped and lower-cased line code and the re-rendered date.
   */
  lemma RowOfFields(car: string, date: string, other: string, code: string)
    requires ',' !in car && ',' !in date && ',' !in other && ',' !in code
    requires ParseSlashDate(date).Some?
    ensures ParseRow(car + "," + date + "," + other + "," + code) ==
      if Strip(code) == ActiveMarker then Ok(None)
      else Ok(Some(Ride(Strip(car), Lower(Strip(code)), FormatSlash(ParseSlashDate(date).value))))
  {
    SplitFour(car, date, other, code);
  }

  /** A line whose field 1 is not a date raises on it, whatever field 3 holds, `Active` included. */
  lemma RowOfBadDate(car: string, date: string, other: string, code: string)
    requires ',' !in car && ',' !in date && ',' !in other && ',' !in code
    requires ParseSlashDate(date).None?
    ensures ParseRow(car + "," + date + "," + other + "," + code) == Err(BadDate(date))
  {
    SplitFour(car, date, other, code);
  }

  /**
   * Field 1 is not stripped: a date with whitespace (or anything else that is
   * not a digit) in front raises, even on a row marked `Active`.
   */
  lemma RowOfSpacedDate(car: string, date: string, other: string, code: string)
    requires ',' !in car && ',' !in date && ',' !in other && ',' !in code
    requires |date| > 0 && !IsDigit(date[0])
    ensures ParseRow(car + "," + date + "," + other + "," + code) == Err(BadDate(date))
  {
    DateStartsWithDigit(date);
    RowOfBadDate(car, date, other, code);
  }

  lemma SpacedDateSplit()
    ensures Split("4200, 3/1/2024,x,Reds", ',') == ["4200", " 3/1/2024", "x", "Reds"]
  {
    assert "4200" + "," + " 3/1/2024" + "," + "x" + "," + "Reds" == "4200, 3/1/2024,x,Reds";
    SplitFour("4200", " 3/1/2024", "x", "Reds");
  }

  /** The concrete case: `4200, 3/1/2024,x,Reds` raises on ` 3/1/2024`. */
  lemma RowExampleSpacedDate()
    ensures ParseRow("4200, 3/1/2024,x,Reds") == Err(BadDate(" 3/1/2024"))
  {
    SpacedDateSplit();
    DateStartsWithDigit(" 3/1/2024");
  }

  /**
   * A two-field row still carries its newline in field 1, so `strptime`
   * rejects it at line 18 before the missing field 3 is reached at line 20.
   */
  lemma ShortRowFailsOnDate(car: string, date: string)
    requires ',' !in car && ',' !in date
    ensures ParseRow(car + "," + date + "\n") == Err(BadDate(date + "\n"))
  {
    assert ',' !in date + "\n";
    SplitNoSep(car, ',');
    assert car + "," + date + "\n" == car + [','] + (date + "\n");
    SplitSnoc(car, date + "\n", ',');
    NewlineEndedDateRejected(date);
  }
}
