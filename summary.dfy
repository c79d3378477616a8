/** The end of a run: `run_all_tests` records one result per test, counts
    the passes and reports success exactly when all passed; `main` and the
    script's entry point turn that into the process exit code. The tests
    themselves talk to a server, so what each one did is an input here. */
module Summary {

  /** The tests `run_all_tests` runs, in order. */
  const TestNames: seq<string> := [
    "Torrent Upload", "Get Torrents", "WebSocket Connection", "Torrent Controls",
    "System Statistics", "Global Bandwidth Limits", "Cleanup"
  ]

  /** What awaiting one test coroutine gave: the boolean it returned, or an
      `Exception` escaping it. Exceptions outside `Exception` end the whole
      run instead (see `RunEnd`). */
  datatype Outcome = Returned(ok: bool) | Raised

  /** The value `results[test_name]` receives: what the test returned, or
      `False` when it raised an `Exception`. */
  function Recorded(o: Outcome): (passed: bool)
    ensures passed <==> o == Returned(true)
  {
    match o
    case Returned(ok) => ok
    case Raised => false
  }

  /** The `results` dictionary after the loop, in insertion order. */
  function Results(names: seq<string>, outcomes: seq<Outcome>): (rs: seq<(string, bool)>)
    requires |outcomes| == |names|
    ensures |rs| == |names|
    ensures forall i :: 0 <= i < |rs| ==> rs[i] == (names[i], Recorded(outcomes[i]))
  {
    if names == [] then []
    else [(names[0], Recorded(outcomes[0]))] + Results(names[1..], outcomes[1..])
  }

  /** `sum(1 for result in results.values() if result)`. */
  function CountPassed(rs: seq<(string, bool)>): (n: nat)
    ensures n <= |rs|
    ensures n == |rs| ==> forall i :: 0 <= i < |rs| ==> rs[i].1
  {
    if rs == [] then 0
    else CountPassed(rs[..|rs| - 1]) + (if rs[|rs| - 1].1 then 1 else 0)
  }

  /** Every recorded result true means every test counted as passed. */
  lemma {:induction false} AllTrueCountsAll(rs: seq<(string, bool)>)
    requires forall i :: 0 <= i < |rs| ==> rs[i].1
    ensures CountPassed(rs) == |rs|
  {
    if rs != [] {
      AllTrueCountsAll(rs[..|rs| - 1]);
    }
  }

  /** `passed == total` exactly when every recorded result is true. */
  lemma AllPassedIff(rs: seq<(string, bool)>)
    ensures CountPassed(rs) == |rs| <==> forall i :: 0 <= i < |rs| ==> rs[i].1
  {
    if forall i :: 0 <= i < |rs| ==> rs[i].1 {
      AllTrueCountsAll(rs);
    }
  }

  /** A run succeeds exactly when every test returned true: a test that
      returned false or raised fails the run. */
  lemma SuccessIff(names: seq<string>, outcomes: seq<Outcome>)
    requires |outcomes| == |names|
    ensures var rs := Results(names, outcomes);
      CountPassed(rs) == |rs| <==> forall i :: 0 <= i < |outcomes| ==> outcomes[i] == Returned(true)
  {
    var rs := Results(names, outcomes);
    AllPassedIff(rs);
    assert forall i :: 0 <= i < |outcomes| ==> (rs[i].1 <==> outcomes[i] == Returned(true));
  }

  /** `run_all_tests` over the `tests` list: record every result, then
      tally. */
  method RunAllTests(names: seq<string>, outcomes: seq<Outcome>)
    returns (results: seq<(string, bool)>, passed: nat, total: nat, success: bool)
    requires |outcomes| == |names|
    ensures results == Results(names, outcomes)
    ensures passed == CountPassed(results) && total == |names|
    ensures success <==> passed == total
  {
    results := RecordResults(names, outcomes);
    passed := CountTrue(results);
    total := |results|;
    success := passed == total;
  }

  /** The loop that awaits each test and stores its result. */
  method RecordResults(names: seq<string>, outcomes: seq<Outcome>) returns (results: seq<(string, bool)>)
    requires |outcomes| == |names|
    ensures results == Results(names, outcomes)
  {
    results := [];
    for i := 0 to |names|
      invariant results == Results(names[..i], outcomes[..i])
    {
      var result: bool;
      match outcomes[i] {
        case Returned(ok) =>
          result := ok;
        case Raised =>
          result := false;
      }
      assert names[..i + 1] == names[..i] + [names[i]];
      assert outcomes[..i + 1] == outcomes[..i] + [outcomes[i]];
      ResultsSnoc(names[..i], outcomes[..i], names[i], outcomes[i]);
      results := results + [(names[i], result)];
    }
    assert names[..|names|] == names && outcomes[..|outcomes|] == outcomes;
  }

  /** The count of true results. */
  method CountTrue(results: seq<(string, bool)>) returns (passed: nat)
    ensures passed == CountPassed(results)
  {
    passed := 0;
    for i := 0 to |results|
      invariant passed == CountPassed(results[..i])
    {
      assert results[..i + 1][..i] == results[..i];
      if results[i].1 {
        passed := passed + 1;
      }
    }
    assert results[..|results|] == results;
  }

  /** Recording one more test appends one entry. */
  lemma {:induction false} ResultsSnoc(names: seq<string>, outcomes: seq<Outcome>, name: string, o: Outcome)
    requires |outcomes| == |names|
    ensures Results(names + [name], outcomes + [o]) == Results(names, outcomes) + [(name, Recorded(o))]
  {
    var rs := Results(names + [name], outcomes + [o]);
    var want := Results(names, outcomes) + [(name, Recorded(o))];
    assert |rs| == |want|;
    forall i | 0 <= i < |rs| ensures rs[i] == want[i] {
      if i < |names| {
        assert (names + [name])[i] == names[i];
        assert (outcomes + [o])[i] == outcomes[i];
      }
    }
  }

  /** `0 if success else 1`. */
  function ExitCode(success: bool): (code: int)
    ensures code == 0 <==> success
    ensures code == 0 || code == 1
  {
    if success then 0 else 1
  }

  /** How the script's run ended: `main` completed with a verdict, or the
      user interrupted it, or an unexpected exception escaped. */
  datatype RunEnd = Completed(success: bool) | Interrupted | Crashed

  /** The status the script passes to `sys.exit`. */
  function ExitStatus(end: RunEnd): (code: int)
    ensures code == 0 <==> end == Completed(true)
    ensures code == 0 || code == 1
  {
    match end
    case Completed(success) => ExitCode(success)
    case Interrupted => 1
    case Crashed => 1
  }

  /** `main`: run every test and turn the verdict into an exit code. */
  method RunMain(outcomes: seq<Outcome>) returns (code: int)
    requires |outcomes| == |TestNames|
    ensures code == 0 <==> forall i :: 0 <= i < |outcomes| ==> outcomes[i] == Returned(true)
  {
    var results, passed, total, success := RunAllTests(TestNames, outcomes);
    SuccessIff(TestNames, outcomes);
    code := ExitCode(success);
  }
}
