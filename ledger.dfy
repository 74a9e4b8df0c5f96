/**
 * The seen-cars file `data/seen_cars.yml` as the three maintenance scripts
 * use it: a list of ride records that the scrubber and the date converter
 * rewrite from the start and the importer extends at the end. The file is
 * the `rides` field; writing one `yaml.dump([ride])` record is appending one
 * ride to it.
 */
module Ledger {
  import opened Results
  import opened Rides
  import opened RideScrubber
  import opened DateConverter
  import opened RideImporter

  /**
   * Why a scrubber or converter run raises. A file without records is the
   * empty text these scripts leave behind; `yaml.safe_load` reads it as
   * `None`, and `for ride in rides` then raises `TypeError`. The scrubber's
   * `int()` can raise too.
   */
  datatype RunError = EmptyFile | BadCarNumber(cause: ScrubError)

  /** `ride_scrubber.main` as a function of the records in the file. */
  function ScrubRun(rides: seq<Ride>): Result<ScrubReport, RunError> {
    if rides == [] then Err(EmptyFile)
    else
      match Scrub(rides)
      case Ok(report) => Ok(report)
      case Err(e) => Err(BadCarNumber(e))
  }

  /** A run succeeds exactly on a non-empty file whose car numbers all parse, and then keeps the in-limit rides. */
  lemma ScrubRunSucceedsIff(rides: seq<Ride>)
    ensures ScrubRun(rides).Ok? <==> rides != [] && forall i :: 0 <= i < |rides| ==> HasCarNumber(rides[i])
    ensures ScrubRun(rides).Ok? ==> ScrubRun(rides).value == ScrubReport(KeptRides(rides), DroppedRides(rides))
  {
    ScrubSucceedsIff(rides);
  }

  /** Scrubbing again a file that kept some rides succeeds, keeps them all and drops none. */
  lemma RerunKeepsEverything(rides: seq<Ride>)
    requires ScrubRun(rides).Ok? && ScrubRun(rides).value.kept != []
    ensures ScrubRun(ScrubRun(rides).value.kept) == Ok(ScrubReport(ScrubRun(rides).value.kept, []))
  {
    ScrubIdempotent(rides);
  }

  /** A run that dropped every ride leaves the empty file, on which the next run raises. */
  lemma EmptiedFileBreaksNextRun(rides: seq<Ride>)
    requires ScrubRun(rides).Ok? && KeptRides(rides) == []
    ensures ScrubRun(rides).value.kept == []
    ensures ScrubRun(ScrubRun(rides).value.kept) == Err(EmptyFile)
  {
    ScrubSucceedsIff(rides);
  }

  /** One ride above the limit: the first run succeeds and empties the file, the second raises. */
  lemma DropAllThenRerun(r: Ride)
    requires Drops(r)
    ensures ScrubRun([r]) == Ok(ScrubReport([], [r]))
    ensures ScrubRun(ScrubRun([r]).value.kept) == Err(EmptyFile)
  {
    var rides := [r];
    assert rides[..0] == [] && rides[0] == r;
    assert Scrub(rides[..0]) == Ok(ScrubReport([], []));
    assert [] + [r] == [r];
    assert Scrub(rides) == Ok(ScrubReport([], [r]));
  }

  class SeenCarsFile {
    /** The records the file holds, in file order. */
    var rides: seq<Ride>

    constructor(initial: seq<Ride>)
      ensures rides == initial
    {
      rides := initial;
    }

    /** `open(SEEN_CARS_FILE, mode='w')` and one written record per ride: the file becomes exactly `records`. */
    method Rewrite(records: seq<Ride>)
      modifies this
      ensures rides == records
    {
      rides := [];
      for i := 0 to |records|
        invariant rides == records[..i]
      {
        assert records[..i + 1] == records[..i] + [records[i]];
        rides := rides + [records[i]];
      }
      assert records[..|records|] == records;
    }

    /** `open(SEEN_CARS_FILE, 'a')` and one written record per ride: what was there stays, `records` follow. */
    method AppendAll(records: seq<Ride>)
      modifies this
      ensures rides == old(rides) + records
    {
      for i := 0 to |records|
        invariant rides == old(rides) + records[..i]
      {
        assert records[..i + 1] == records[..i] + [records[i]];
        rides := rides + [records[i]];
      }
      assert records[..|records|] == records;
    }

    /**
     * `ride_scrubber.main`: on an empty file, or when a car number does not
     * parse, the run raises before the file is opened for writing and it
     * stays as it was; otherwise the file is rewritten with the rides of at
     * most 9999, in their order.
     */
    method RunScrubber() returns (outcome: Result<ScrubReport, RunError>)
      modifies this
      ensures outcome == ScrubRun(old(rides))
      ensures outcome.Ok? ==> rides == outcome.value.kept && rides == KeptRides(old(rides))
      ensures outcome.Ok? ==> forall r :: r in rides ==> Keeps(r)
      ensures outcome.Err? ==> rides == old(rides)
    {
      if rides == [] {
        return Err(EmptyFile);
      }
      var scrubbed := ScrubRides(rides);
      ScrubSucceedsIff(rides);
      FiltersClassify(rides);
      match scrubbed
      case Err(e) =>
        outcome := Err(BadCarNumber(e));
      case Ok(report) =>
        outcome := Ok(report);
        Rewrite(report.kept);
    }

    /**
     * `date_converter.main`: the file is opened for writing, which truncates
     * it, and the loaded records are written back with their dates converted,
     * each record otherwise as it was. On an empty file the loop raises
     * `TypeError` after the truncation, which leaves the file empty.
     */
    method RunDateConverter() returns (failure: Option<RunError>)
      modifies this
      ensures failure == if old(rides) == [] then Some(EmptyFile) else None
      ensures rides == ConvertedRides(old(rides))
    {
      if rides == [] {
        Rewrite([]);
        return Some(EmptyFile);
      }
      var loaded := rides;
      var records := new Ride[|loaded|](i requires 0 <= i < |loaded| => loaded[i]);
      assert records[..] == loaded;
      ConvertRideDates(records);
      Rewrite(records[..]);
      failure := None;
    }

    /**
     * `ride_importer.main` on the lines of the import file: when every row
     * parses, the produced rides are appended after the existing records;
     * when one raises, the file is not opened and stays as it was. Either way
     * the records already there are never rewritten.
     */
    method RunImporter(lines: seq<string>) returns (outcome: Result<seq<Ride>, ImportFailure>)
      modifies this
      ensures outcome == Import(lines)
      ensures outcome.Ok? ==> rides == old(rides) + outcome.value
      ensures outcome.Err? ==> rides == old(rides)
      ensures |old(rides)| <= |rides| && rides[..|old(rides)|] == old(rides)
    {
      outcome := ImportRows(lines);
      if outcome.Ok? {
        AppendAll(outcome.value);
      }
    }
  }
}
