/**
 * The `/cars` view of `app/main.py`: the observations of the `observed_cars`
 * table joined with the `lines` catalog, every observation shown with the
 * long name of its line. The two query results are taken as inputs; the
 * type of a car number and of an observation date are left open (`C`, `D`),
 * since the view copies them without looking at them.
 */
module CarsView {
  import opened Results

  /** A row of `observed_cars`: column 0 the car number, 1 the line code, 2 the date. */
  datatype Observation<C, D> = Observation(carNo: C, lineCode: string, date: D)

  /** A row of `lines`: column 0 the short name, column 2 the long name (column 1 is not read). */
  datatype LineRow = LineRow(shortname: string, column1: string, longname: string)

  /** One entry of the list the view returns: `{car_no, line, date_obs}`. */
  datatype CarView<C, D> = CarView(carNo: C, line: string, dateObs: D)

  /** The `KeyError` a line code missing from the catalog raises. */
  datatype JoinError = MissingLine(code: string)

  /**
   * `friendly_lines` after the first loop: every row, in order, maps its short
   * name to its long name, overwriting what an earlier row with the same short
   * name put there.
   */
  function FriendlyLines(rows: seq<LineRow>): map<string, string> {
    if rows == [] then map[]
    else
      var last := rows[|rows| - 1];
      FriendlyLines(rows[..|rows| - 1])[last.shortname := last.longname]
  }

  /** The catalog names exactly the short names of its rows. */
  lemma {:induction false} FriendlyLinesKeys(rows: seq<LineRow>)
    ensures FriendlyLines(rows).Keys == set i | 0 <= i < |rows| :: rows[i].shortname
  {
    if rows != [] {
      var init := rows[..|rows| - 1];
      FriendlyLinesKeys(init);
      var s := set i | 0 <= i < |rows| :: rows[i].shortname;
      var t := set i | 0 <= i < |init| :: init[i].shortname;
      assert s == t + {rows[|rows| - 1].shortname} by {
        forall k | k in s ensures k in t + {rows[|rows| - 1].shortname} {
          var i :| 0 <= i < |rows| && rows[i].shortname == k;
          if i < |init| {
            assert init[i] == rows[i];
          }
        }
        forall k | k in t ensures k in s {
          var i :| 0 <= i < |init| && init[i].shortname == k;
          assert rows[i] == init[i];
        }
      }
    }
  }

  /** The row `i` is the last one with its short name. */
  predicate LastWithName(rows: seq<LineRow>, i: int) {
    && 0 <= i < |rows|
    && forall j :: i < j < |rows| ==> rows[j].shortname != rows[i].shortname
  }

  /** The last row with a short name decides its long name: later rows never reach it back. */
  lemma {:induction false} FriendlyLinesLastWins(rows: seq<LineRow>, i: int)
    requires LastWithName(rows, i)
    ensures rows[i].shortname in FriendlyLines(rows)
    ensures FriendlyLines(rows)[rows[i].shortname] == rows[i].longname
  {
    if i < |rows| - 1 {
      var init := rows[..|rows| - 1];
      assert init[i] == rows[i];
      assert LastWithName(init, i) by {
        forall j | i < j < |init| ensures init[j].shortname != init[i].shortname {
          assert init[j] == rows[j];
        }
      }
      FriendlyLinesLastWins(init, i);
    }
  }

  /** Every entry of the catalog comes from the last row with that short name. */
  lemma {:induction false} FriendlyLinesFromLastRow(rows: seq<LineRow>, k: string)
    requires k in FriendlyLines(rows)
    ensures exists i :: LastWithName(rows, i) && rows[i].shortname == k && FriendlyLines(rows)[k] == rows[i].longname
  {
    var last := rows[|rows| - 1];
    var init := rows[..|rows| - 1];
    if last.shortname == k {
      assert LastWithName(rows, |rows| - 1);
    } else {
      FriendlyLinesFromLastRow(init, k);
      var i :| LastWithName(init, i) && init[i].shortname == k && FriendlyLines(init)[k] == init[i].longname;
      assert rows[i] == init[i];
      assert LastWithName(rows, i) by {
        forall j | i < j < |rows| ensures rows[j].shortname != rows[i].shortname {
          if j < |init| {
            assert rows[j] == init[j];
          }
        }
      }
    }
  }

  /** Lines 109-121 after both loops: every observation with its line's long name, or the first missing code. */
  function JoinCars<C, D>(observations: seq<Observation<C, D>>, friendly: map<string, string>): Result<seq<CarView<C, D>>, JoinError> {
    if observations == [] then Ok([])
    else
      var obs := observations[|observations| - 1];
      match JoinCars(observations[..|observations| - 1], friendly)
      case Err(e) => Err(e)
      case Ok(parsed) =>
        if obs.lineCode in friendly then Ok(parsed + [CarView(obs.carNo, friendly[obs.lineCode], obs.date)])
        else Err(MissingLine(obs.lineCode))
  }

  /** Once a prefix of the observations raises, the whole join raises the same error. */
  lemma {:induction false} JoinErrorSticks<C, D>(observations: seq<Observation<C, D>>, friendly: map<string, string>, n: nat)
    requires n <= |observations| && JoinCars(observations[..n], friendly).Err?
    ensures JoinCars(observations, friendly) == JoinCars(observations[..n], friendly)
  {
    if n < |observations| {
      var init := observations[..|observations| - 1];
      assert init[..n] == observations[..n];
      JoinErrorSticks(init, friendly, n);
    } else {
      assert observations[..n] == observations;
    }
  }

  /** The view of every observation when all line codes are known: car number and date as they are, the line looked up. */
  function AllViews<C, D>(observations: seq<Observation<C, D>>, friendly: map<string, string>): seq<CarView<C, D>>
    requires forall i :: 0 <= i < |observations| ==> observations[i].lineCode in friendly
  {
    seq(|observations|, i requires 0 <= i < |observations| =>
      CarView(observations[i].carNo, friendly[observations[i].lineCode], observations[i].date))
  }

  /**
   * The join succeeds exactly when every line code is in the catalog, and then
   * it holds one entry per observation, in order, each with the observation's
   * car number and date and the catalog's name for its line.
   */
  lemma {:induction false} JoinSucceedsIff<C, D>(observations: seq<Observation<C, D>>, friendly: map<string, string>)
    ensures JoinCars(observations, friendly).Ok? <==> forall i :: 0 <= i < |observations| ==> observations[i].lineCode in friendly
    ensures JoinCars(observations, friendly).Ok? ==> JoinCars(observations, friendly).value == AllViews(observations, friendly)
  {
    if observations != [] {
      var init := observations[..|observations| - 1];
      var obs := observations[|observations| - 1];
      JoinSucceedsIff(init, friendly);
      if forall i :: 0 <= i < |observations| ==> observations[i].lineCode in friendly {
        assert forall i :: 0 <= i < |init| ==> init[i] == observations[i];
        assert AllViews(observations, friendly) == AllViews(init, friendly) + [CarView(obs.carNo, friendly[obs.lineCode], obs.date)];
      } else {
        var i :| 0 <= i < |observations| && observations[i].lineCode !in friendly;
        if i < |init| {
          assert init[i] == observations[i];
        }
      }
    }
  }

  /** A failed join names the line code of the first observation missing from the catalog. */
  lemma {:induction false} JoinFailsAtFirstMissing<C, D>(observations: seq<Observation<C, D>>, friendly: map<string, string>, i: int)
    requires 0 <= i < |observations| && observations[i].lineCode !in friendly
    requires forall j :: 0 <= j < i ==> observations[j].lineCode in friendly
    ensures JoinCars(observations, friendly) == Err(MissingLine(observations[i].lineCode))
  {
    var prefix := observations[..i + 1];
    var init := observations[..i];
    assert prefix[..i] == init;
    assert forall j :: 0 <= j < |init| ==> init[j].lineCode in friendly;
    JoinSucceedsIff(init, friendly);
    JoinErrorSticks(observations, friendly, i + 1);
  }

  /**
   * `get_all_cars` on the two query results: the first loop fills the catalog,
   * the second appends one entry per observation and stops at a missing code.
   */
  method GetAllCars<C, D>(observations: seq<Observation<C, D>>, lines: seq<LineRow>) returns (result: Result<seq<CarView<C, D>>, JoinError>)
    ensures result == JoinCars(observations, FriendlyLines(lines))
  {
    var friendly: map<string, string> := map[];
    for i := 0 to |lines|
      invariant friendly == FriendlyLines(lines[..i])
    {
      assert lines[..i + 1][..i] == lines[..i];
      friendly := friendly[lines[i].shortname := lines[i].longname];
    }
    assert lines[..|lines|] == lines;
    var parsed: seq<CarView<C, D>> := [];
    for i := 0 to |observations|
      invariant JoinCars(observations[..i], friendly) == Ok(parsed)
    {
      var obs := observations[i];
      assert observations[..i + 1][..i] == observations[..i];
      if obs.lineCode !in friendly {
        JoinErrorSticks(observations, friendly, i + 1);
        return Err(MissingLine(obs.lineCode));
      }
      parsed := parsed + [CarView(obs.carNo, friendly[obs.lineCode], obs.date)];
    }
    assert observations[..|observations|] == observations;
    result := Ok(parsed);
  }

  /**
   * The whole view: when it succeeds, entry `i` shows observation `i` with the
   * long name of the last catalog row whose short name is its line code.
   */
  lemma ViewShowsLastCatalogName<C, D>(observations: seq<Observation<C, D>>, lines: seq<LineRow>, i: int, k: int)
    requires JoinCars(observations, FriendlyLines(lines)).Ok?
    requires 0 <= i < |observations|
    requires LastWithName(lines, k) && lines[k].shortname == observations[i].lineCode
    ensures |JoinCars(observations, FriendlyLines(lines)).value| == |observations|
    ensures JoinCars(observations, FriendlyLines(lines)).value[i] == CarView(observations[i].carNo, lines[k].longname, observations[i].date)
  {
    JoinSucceedsIff(observations, FriendlyLines(lines));
    FriendlyLinesLastWins(lines, k);
  }

  /** The view fails exactly when some observation's line code is the short name of no catalog row. */
  lemma ViewFailsIff<C, D>(observations: seq<Observation<C, D>>, lines: seq<LineRow>)
    ensures JoinCars(observations, FriendlyLines(lines)).Err? <==>
      exists i :: 0 <= i < |observations| && forall k :: 0 <= k < |lines| ==> lines[k].shortname != observations[i].lineCode
  {
    JoinSucceedsIff(observations, FriendlyLines(lines));
    FriendlyLinesKeys(lines);
  }

  /** A catalog listing `RD` twice shows the later long name; a code it lacks makes the view raise. */
  lemma DuplicateShortnameExample(d: int)
    ensures var lines := [LineRow("RD", "1", "Red Line"), LineRow("GR", "2", "Green Line"), LineRow("RD", "3", "Red")];
            && JoinCars([Observation(101, "RD", d)], FriendlyLines(lines)) == Ok([CarView(101, "Red", d)])
            && JoinCars([Observation(101, "RD", d), Observation(7, "BL", d), Observation(8, "YL", d)], FriendlyLines(lines))
                 == Err(MissingLine("BL"))
  {
    var lines := [LineRow("RD", "1", "Red Line"), LineRow("GR", "2", "Green Line"), LineRow("RD", "3", "Red")];
    var m := FriendlyLines(lines);
    assert lines[..1][..0] == [];
    assert FriendlyLines(lines[..1]) == map["RD" := "Red Line"];
    assert lines[..2][..1] == lines[..1];
    assert FriendlyLines(lines[..2]) == map["RD" := "Red Line", "GR" := "Green Line"];
    assert lines[..3][..2] == lines[..2] && lines[..3] == lines;
    assert m == map["RD" := "Red Line", "GR" := "Green Line"]["RD" := "Red"];
    var one := [Observation(101, "RD", d)];
    assert one[..0] == [] && one[|one| - 1] == Observation(101, "RD", d);
    assert JoinCars(one[..0], m) == Ok([]);
    assert [] + [CarView(101, "Red", d)] == [CarView(101, "Red", d)];
    assert "RD" in m && m["RD"] == "Red" && "BL" !in m;
    assert JoinCars(one, m) == Ok([CarView(101, "Red", d)]);
    var obs := [Observation(101, "RD", d), Observation(7, "BL", d), Observation(8, "YL", d)];
    JoinFailsAtFirstMissing(obs, m, 1);
  }
}
