/**
 * `ride_scrubber.py`: keep the rides whose `int(car_no)` is at most
 * `CAR_NO_LIMIT`, in their order, and report each one dropped. A `car_no`
 * that `int()` rejects raises, which ends the run before the file is
 * rewritten.
 */
module RideScrubber {
  import opened Results
  import opened Text
  import opened Rides

  const CarNoLimit: int := 9999

  /** The `ValueError` raised by `int(ride['car_no'])`, naming the offending text. */
  datatype ScrubError = NotAnInteger(carNo: string)

  /**
   * What one run produces: the rides to write back, and the rides dropped,
   * one per "Car number ... is not valid. Skipping." line printed.
   */
  datatype ScrubReport = ScrubReport(kept: seq<Ride>, dropped: seq<Ride>)

  predicate HasCarNumber(r: Ride) {
    ParseInt(r.carNo).Some?
  }

  /** A ride survives when its number parses and is not above the limit (the test drops `> CAR_NO_LIMIT`). */
  predicate Keeps(r: Ride) {
    ParseInt(r.carNo).Some? && ParseInt(r.carNo).value <= CarNoLimit
  }

  predicate Drops(r: Ride) {
    ParseInt(r.carNo).Some? && ParseInt(r.carNo).value > CarNoLimit
  }

  /**
   * The loop of lines 13-18 over `rides`, as a function of the rides seen so
   * far: the first ride whose number does not parse aborts; otherwise each
   * ride goes to `kept` or `dropped`.
   */
  function Scrub(rides: seq<Ride>): Result<ScrubReport, ScrubError> {
    if rides == [] then Ok(ScrubReport([], []))
    else
      var last := rides[|rides| - 1];
      match Scrub(rides[..|rides| - 1])
      case Err(e) => Err(e)
      case Ok(rep) =>
        match ParseInt(last.carNo)
        case None => Err(NotAnInteger(last.carNo))
        case Some(n) =>
          if n > CarNoLimit then Ok(rep.(dropped := rep.dropped + [last]))
          else Ok(rep.(kept := rep.kept + [last]))
  }

  /** The loop of lines 13-18. */
  method ScrubRides(rides: seq<Ride>) returns (result: Result<ScrubReport, ScrubError>)
    ensures result == Scrub(rides)
  {
    var kept: seq<Ride> := [];
    var dropped: seq<Ride> := [];
    for i := 0 to |rides|
      invariant Scrub(rides[..i]) == Ok(ScrubReport(kept, dropped))
    {
      assert rides[..i + 1][..i] == rides[..i];
      var ride := rides[i];
      var n := ParseInt(ride.carNo);
      if n.None? {
        ScrubErrorSticks(rides, i + 1);
        return Err(NotAnInteger(ride.carNo));
      }
      if n.value > CarNoLimit {
        dropped := dropped + [ride];
        continue;
      } else {
        kept := kept + [ride];
      }
    }
    assert rides[..|rides|] == rides;
    result := Ok(ScrubReport(kept, dropped));
  }

  /** Once a prefix has failed, the whole run fails with the same error. */
  lemma {:induction false} ScrubErrorSticks(rides: seq<Ride>, k: nat)
    requires k <= |rides| && Scrub(rides[..k]).Err?
    ensures Scrub(rides) == Scrub(rides[..k])
  {
    if k < |rides| {
      var init := rides[..|rides| - 1];
      assert init[..k] == rides[..k];
      ScrubErrorSticks(init, k);
    } else {
      assert rides[..k] == rides;
    }
  }

  /** Reference filters: the rides kept, and the rides dropped, in input order. */
  function KeptRides(rides: seq<Ride>): seq<Ride> {
    if rides == [] then []
    else KeptRides(rides[..|rides| - 1]) + (if Keeps(rides[|rides| - 1]) then [rides[|rides| - 1]] else [])
  }

  function DroppedRides(rides: seq<Ride>): seq<Ride> {
    if rides == [] then []
    else DroppedRides(rides[..|rides| - 1]) + (if Drops(rides[|rides| - 1]) then [rides[|rides| - 1]] else [])
  }

  /**
   * The run succeeds exactly when every `car_no` parses, and then the report
   * is the pair of reference filters.
   */
  lemma {:induction false} ScrubSucceedsIff(rides: seq<Ride>)
    ensures Scrub(rides).Ok? <==> forall i :: 0 <= i < |rides| ==> HasCarNumber(rides[i])
    ensures Scrub(rides).Ok? ==> Scrub(rides).value == ScrubReport(KeptRides(rides), DroppedRides(rides))
  {
    if rides != [] {
      var init := rides[..|rides| - 1];
      var last := rides[|rides| - 1];
      assert rides == init + [last];
      ScrubSucceedsIff(init);
      match Scrub(init)
      case Err(_) =>
        var j :| 0 <= j < |init| && !HasCarNumber(init[j]);
        assert rides[j] == init[j];
      case Ok(rep) =>
        assert rep == ScrubReport(KeptRides(init), DroppedRides(init));
        if HasCarNumber(last) {
          AllHaveCarNumbers(init, last);
          if Keeps(last) {
            assert Scrub(rides) == Ok(ScrubReport(rep.kept + [last], rep.dropped));
          } else {
            assert Scrub(rides) == Ok(ScrubReport(rep.kept, rep.dropped + [last]));
          }
        }
    }
  }

  /** Extending a file whose car numbers all parse by one more that parses. */
  lemma AllHaveCarNumbers(init: seq<Ride>, last: Ride)
    requires forall i :: 0 <= i < |init| ==> HasCarNumber(init[i])
    requires HasCarNumber(last)
    ensures forall i :: 0 <= i < |init + [last]| ==> HasCarNumber((init + [last])[i])
  {
    forall i | 0 <= i < |init + [last]| ensures HasCarNumber((init + [last])[i]) {
      if i < |init| {
        assert (init + [last])[i] == init[i];
      } else {
        assert (init + [last])[i] == last;
      }
    }
  }

  /** A failed run names the first ride, in file order, whose `car_no` does not parse. */
  lemma {:induction false} ScrubFailsAtFirstBadCar(rides: seq<Ride>)
    requires Scrub(rides).Err?
    ensures exists i :: 0 <= i < |rides| && !HasCarNumber(rides[i])
              && Scrub(rides).error == NotAnInteger(rides[i].carNo)
              && forall j :: 0 <= j < i ==> HasCarNumber(rides[j])
  {
    var init := rides[..|rides| - 1];
    var last := |rides| - 1;
    match Scrub(init)
    case Err(e) =>
      assert Scrub(rides) == Err(e);
      ScrubFailsAtFirstBadCar(init);
      var i :| 0 <= i < |init| && !HasCarNumber(init[i])
               && e == NotAnInteger(init[i].carNo)
               && forall j :: 0 <= j < i ==> HasCarNumber(init[j]);
      forall j | 0 <= j < i ensures HasCarNumber(rides[j]) {
        assert rides[j] == init[j];
      }
      assert rides[i] == init[i];
    case Ok(_) =>
      assert Scrub(rides) == Err(NotAnInteger(rides[last].carNo)) && !HasCarNumber(rides[last]);
      ScrubSucceedsIff(init);
      forall j | 0 <= j < last ensures HasCarNumber(rides[j]) {
        assert rides[j] == init[j];
      }
  }

  /** Every kept ride has a number of at most 9999, every dropped one a larger number. */
  lemma {:induction false} FiltersClassify(rides: seq<Ride>)
    ensures forall r :: r in KeptRides(rides) ==> Keeps(r)
    ensures forall r :: r in DroppedRides(rides) ==> Drops(r)
  {
    if rides != [] {
      FiltersClassify(rides[..|rides| - 1]);
    }
  }

  /** Every ride that passes the test is in the output. */
  lemma {:induction false} KeptComplete(rides: seq<Ride>)
    ensures forall i :: 0 <= i < |rides| && Keeps(rides[i]) ==> rides[i] in KeptRides(rides)
  {
    if rides != [] {
      var init := rides[..|rides| - 1];
      var last := rides[|rides| - 1];
      KeptComplete(init);
      var kept := KeptRides(init);
      var all := KeptRides(rides);
      if Keeps(last) {
        assert all == kept + [last];
      } else {
        assert all == kept;
      }
      forall i | 0 <= i < |rides| && Keeps(rides[i]) ensures rides[i] in all {
        if i < |init| {
          assert rides[i] == init[i] && init[i] in kept;
        } else {
          assert rides[i] == last;
        }
      }
    }
  }

  /** Every ride that fails the test is reported. */
  lemma {:induction false} DroppedComplete(rides: seq<Ride>)
    ensures forall i :: 0 <= i < |rides| && Drops(rides[i]) ==> rides[i] in DroppedRides(rides)
  {
    if rides != [] {
      var init := rides[..|rides| - 1];
      var last := rides[|rides| - 1];
      DroppedComplete(init);
      var dropped := DroppedRides(init);
      var all := DroppedRides(rides);
      if Drops(last) {
        assert all == dropped + [last];
      } else {
        assert all == dropped;
      }
      forall i | 0 <= i < |rides| && Drops(rides[i]) ensures rides[i] in all {
        if i < |init| {
          assert rides[i] == init[i] && init[i] in dropped;
        } else {
          assert rides[i] == last;
        }
      }
    }
  }

  /** The positions of the kept rides in the input, in increasing order. */
  function KeptPositions(rides: seq<Ride>): seq<nat> {
    if rides == [] then []
    else KeptPositions(rides[..|rides| - 1]) + (if Keeps(rides[|rides| - 1]) then [|rides| - 1] else [])
  }

  /**
   * Order is preserved and kept rides are copied unchanged: the k-th kept
   * ride is the input ride at the k-th kept position, and the positions
   * increase.
   */
  lemma {:induction false} KeptIsOrderedSelection(rides: seq<Ride>)
    ensures |KeptPositions(rides)| == |KeptRides(rides)|
    ensures forall k :: 0 <= k < |KeptPositions(rides)| ==>
              KeptPositions(rides)[k] < |rides| && KeptRides(rides)[k] == rides[KeptPositions(rides)[k]]
    ensures forall k, l :: 0 <= k < l < |KeptPositions(rides)| ==> KeptPositions(rides)[k] < KeptPositions(rides)[l]
  {
    if rides != [] {
      var init := rides[..|rides| - 1];
      var last := rides[|rides| - 1];
      assert rides == init + [last];
      KeptIsOrderedSelection(init);
      var positions, kept := KeptPositions(init), KeptRides(init);
      if Keeps(last) {
        assert KeptPositions(rides) == positions + [|init|];
        assert KeptRides(rides) == kept + [last];
      } else {
        assert KeptPositions(rides) == positions && KeptRides(rides) == kept;
      }
    }
  }

  /** Every position missing from the kept positions holds a ride that does not pass the test. */
  lemma {:induction false} KeptSkipsOnlyFailing(rides: seq<Ride>)
    ensures forall i :: 0 <= i < |rides| && i !in KeptPositions(rides) ==> !Keeps(rides[i])
  {
    if rides != [] {
      var init := rides[..|rides| - 1];
      var last := rides[|rides| - 1];
      KeptSkipsOnlyFailing(init);
      var positions := KeptPositions(init);
      var all := KeptPositions(rides);
      if Keeps(last) {
        assert all == positions + [|init|];
      } else {
        assert all == positions;
      }
      forall i | 0 <= i < |rides| && i !in all ensures !Keeps(rides[i]) {
        if i < |init| {
          assert i !in positions && rides[i] == init[i];
        } else {
          assert i == |init| && rides[i] == last;
        }
      }
    }
  }

  /** With every number parsing, each ride is either kept or dropped: the counts add up. */
  lemma CountsAddUp(rides: seq<Ride>)
    requires forall i :: 0 <= i < |rides| ==> HasCarNumber(rides[i])
    ensures |KeptRides(rides)| + |DroppedRides(rides)| == |rides|
    ensures multiset(KeptRides(rides)) + multiset(DroppedRides(rides)) == multiset(rides)
  {
    KeptDroppedPermutation(rides);
    assert |multiset(KeptRides(rides)) + multiset(DroppedRides(rides))| == |multiset(rides)|;
  }

  /** The kept and the dropped rides together are a rearrangement of the input. */
  lemma {:induction false} KeptDroppedPermutation(rides: seq<Ride>)
    requires forall i :: 0 <= i < |rides| ==> HasCarNumber(rides[i])
    ensures multiset(KeptRides(rides)) + multiset(DroppedRides(rides)) == multiset(rides)
  {
    if rides != [] {
      var init := rides[..|rides| - 1];
      var last := rides[|rides| - 1];
      assert rides == init + [last];
      forall i | 0 <= i < |init| ensures HasCarNumber(init[i]) {
        assert init[i] == rides[i];
      }
      KeptDroppedPermutation(init);
      var kept, dropped := KeptRides(init), DroppedRides(init);
      assert HasCarNumber(last);
      if Keeps(last) {
        assert KeptRides(rides) == kept + [last] && DroppedRides(rides) == dropped;
      } else {
        assert KeptRides(rides) == kept && DroppedRides(rides) == dropped + [last];
      }
      assert multiset(rides) == multiset(init) + multiset{last};
    }
  }

  /** Filtering rides that all pass changes nothing. */
  lemma {:induction false} KeptOfKeptIsIdentity(rides: seq<Ride>)
    requires forall i :: 0 <= i < |rides| ==> Keeps(rides[i])
    ensures KeptRides(rides) == rides
    ensures DroppedRides(rides) == []
  {
    if rides != [] {
      var init := rides[..|rides| - 1];
      var last := rides[|rides| - 1];
      assert rides == init + [last];
      forall i | 0 <= i < |init| ensures Keeps(init[i]) {
        assert init[i] == rides[i];
      }
      KeptOfKeptIsIdentity(init);
      assert Keeps(last);
    }
  }

  /** Scrubbing the scrubbed file succeeds, drops nothing and keeps every ride. */
  lemma ScrubIdempotent(rides: seq<Ride>)
    requires Scrub(rides).Ok?
    ensures Scrub(Scrub(rides).value.kept) == Ok(ScrubReport(Scrub(rides).value.kept, []))
  {
    ScrubSucceedsIff(rides);
    var kept := KeptRides(rides);
    FiltersClassify(rides);
    assert forall i :: 0 <= i < |kept| ==> Keeps(kept[i]) by {
      forall i | 0 <= i < |kept| ensures Keeps(kept[i]) {
        assert kept[i] in kept;
      }
    }
    KeptOfKeptIsIdentity(kept);
    ScrubSucceedsIff(kept);
  }

  /**
   * The boundary, for every car number written as `str(n)`: the ride is kept
   * exactly when `n <= 9999` and dropped exactly when `n > 9999`, so 9999
   * itself stays (the test is a strict `>`) and negative numbers stay too.
   * A rendering longer than `int()` accepts is neither: it aborts the run.
   */
  lemma DecimalBoundary(n: int, line: string, date: string)
    ensures Keeps(Ride(Decimal(n), line, date)) <==> n <= CarNoLimit && DecimalDigits(n) <= IntMaxStrDigits
    ensures Drops(Ride(Decimal(n), line, date)) <==> n > CarNoLimit && DecimalDigits(n) <= IntMaxStrDigits
    ensures HasCarNumber(Ride(Decimal(n), line, date)) <==> DecimalDigits(n) <= IntMaxStrDigits
  {
    ParseIntDecimal(n);
  }

  /** A `car_no` of more digits than `int()` converts makes the run raise instead of dropping the ride. */
  lemma OverlongCarNumberAborts(s: string, line: string, date: string)
    requires |s| > IntMaxStrDigits && forall i :: 0 <= i < |s| ==> IsDigit(s[i])
    ensures !HasCarNumber(Ride(s, line, date))
    ensures Scrub([Ride(s, line, date)]) == Err(NotAnInteger(s))
  {
    ParseIntOfDigits(s);
    assert [Ride(s, line, date)][..0] == [];
  }

  /** A `car_no` led by U+001C, which `strip()` would remove, makes `int()` and so the run raise. */
  lemma SeparatorCarNumberAborts(line: string, date: string)
    ensures Scrub([Ride("\U{1c}5", line, date)]) == Err(NotAnInteger("\U{1c}5"))
  {
    SeparatorIsNotIntSpace();
    assert [Ride("\U{1c}5", line, date)][..0] == [];
  }

  lemma Reads9999()
    ensures ParseInt("9999") == Some(9999)
  {
    ParseIntOfDigits("9999");
    assert "9999"[..3] == "999" && "999"[..2] == "99" && "99"[..1] == "9";
  }

  lemma Reads10000()
    ensures ParseInt("10000") == Some(10000)
  {
    ParseIntOfDigits("10000");
    assert "10000"[..4] == "1000" && "1000"[..3] == "100" && "100"[..2] == "10" && "10"[..1] == "1";
  }

  /** The concrete boundary: `9999` is kept, `10000` dropped, and `12a` is no number at all. */
  lemma Boundary(line: string, date: string)
    ensures Keeps(Ride("9999", line, date))
    ensures Drops(Ride("10000", line, date))
    ensures !HasCarNumber(Ride("12a", line, date))
  {
    Reads9999();
    Reads10000();
    IntSkipNoEdgeSpace("12a");
    assert !WellFormedDigits("12a") by {
      assert "12a"[2] == 'a';
    }
  }

  lemma Reads150()
    ensures ParseInt("150") == Some(150)
  {
    ParseIntOfDigits("150");
    assert "150"[..2] == "15" && "15"[..1] == "1";
  }

  lemma Reads300()
    ensures ParseInt("300") == Some(300)
  {
    ParseIntOfDigits("300");
    assert "300"[..2] == "30" && "30"[..1] == "3";
  }

  lemma Reads9999999()
    ensures ParseInt("9999999") == Some(9999999)
  {
    assert DigitsValue("9") == 9 by { assert "9"[..0] == []; }
    assert DigitsValue("99") == 99 by { assert "99"[..1] == "9"; }
    assert DigitsValue("999") == 999 by { assert "999"[..2] == "99"; }
    assert DigitsValue("9999") == 9999 by { assert "9999"[..3] == "999"; }
    assert DigitsValue("99999") == 99999 by { assert "99999"[..4] == "9999"; }
    assert DigitsValue("999999") == 999999 by { assert "999999"[..5] == "99999"; }
    assert DigitsValue("9999999") == 9999999 by { assert "9999999"[..6] == "999999"; }
    ParseIntOfDigits("9999999");
  }

  /** A mixed file: `[150, 9999999, 300]` keeps `[150, 300]` and drops `[9999999]`. */
  lemma ScenarioMixed(l: string, d: string)
    ensures Scrub([Ride("150", l, d), Ride("9999999", l, d), Ride("300", l, d)])
            == Ok(ScrubReport([Ride("150", l, d), Ride("300", l, d)], [Ride("9999999", l, d)]))
  {
    Reads150();
    Reads9999999();
    Reads300();
    var a, b, c := Ride("150", l, d), Ride("9999999", l, d), Ride("300", l, d);
    assert [a, b, c][..2] == [a, b];
    assert [a, b][..1] == [a];
    assert [a][..0] == [];
    assert [] + [a] == [a] && [] + [b] == [b] && [a] + [c] == [a, c];
    assert Scrub([a]) == Ok(ScrubReport([a], []));
    assert Scrub([a, b]) == Ok(ScrubReport([a], [b]));
  }
}
