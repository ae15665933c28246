/**
  The batch dispatcher, `apply_bionic_reading`, and the spinner's stop flag,
  `LoadingAnimation`. The converter child process is an input: one outcome per
  invocation, in invocation order.
 */
module BatchDispatcher {
  import opened Wrappers
  import opened Text
  import opened Subsequences

  /**
    What `subprocess.run(command, check=True)` does for one command: the child
    exits with a return code (non-zero raises `CalledProcessError`), or the call
    raises some other exception, such as the launch error of a missing program.
   */
  datatype RunOutcome = Exited(returnCode: int) | Raised(exception: String)

  /** The error line printed for one path whose converter reported failure. */
  datatype ConversionError = ConversionError(path: String, returnCode: int)

  /**
    Everything observable about one call: the commands run, in order; the
    errors recorded; the exception that escaped the call, if any; and whether
    the spinner's flag was set by the time the call ended.
   */
  datatype DispatchReport = DispatchReport(
    invoked: seq<seq<String>>,
    errors: seq<ConversionError>,
    escaped: Option<String>,
    spinnerStopped: bool)

  /** The spinner. Only its stop flag is modelled; the drawing thread is not. */
  class LoadingAnimation {
    var message: String
    var done: bool

    constructor (message: Option<String>)
      ensures this.message == SpinnerMessage(message) && !done
    {
      this.message := SpinnerMessage(message);
      done := false;
    }

    method Stop()
      modifies this
      ensures done && message == old(message)
    {
      done := true;
    }
  }

  /** The spinner's `message`, `"Processing..."` when the caller gives none. */
  function SpinnerMessage(given: Option<String>): (text: String)
    ensures given.None? ==> text == "Processing..."
    ensures given.Some? ==> text == given.value
  {
    if given.None? then "Processing..." else given.value
  }

  /** The converter's `bionic_script_name`, `"bionic_reader.py"` when the caller gives none. */
  function ScriptName(given: Option<String>): (name: String)
    ensures given.None? ==> name == "bionic_reader.py"
    ensures given.Some? ==> name == given.value
  {
    if given.None? then "bionic_reader.py" else given.value
  }

  /** `["python", bionic_script_name, ebook_path]`. */
  function Command(scriptName: String, path: String): seq<String> {
    ["python", scriptName, path]
  }

  /** The commands for every path, in batch order. */
  function Commands(scriptName: String, paths: seq<String>): seq<seq<String>> {
    seq(|paths|, k requires 0 <= k < |paths| => Command(scriptName, paths[k]))
  }

  /** The outcome is a `CalledProcessError`: a non-zero return code. */
  predicate IsCalledProcessError(outcome: RunOutcome) {
    outcome.Exited? && outcome.returnCode != 0
  }

  /**
    The first invocation that raises something other than a
    `CalledProcessError`, or the batch size when none does.
   */
  function FirstEscape(outcomes: seq<RunOutcome>): (n: nat)
    ensures n <= |outcomes|
    ensures forall k :: 0 <= k < n ==> outcomes[k].Exited?
    ensures n < |outcomes| ==> outcomes[n].Raised?
  {
    if outcomes == [] || outcomes[0].Raised? then 0 else 1 + FirstEscape(outcomes[1..])
  }

  /** The errors recorded for a run of invocations none of which escapes. */
  function Failures(paths: seq<String>, outcomes: seq<RunOutcome>): seq<ConversionError>
    requires |outcomes| == |paths|
  {
    if paths == [] then []
    else
      var n := |paths| - 1;
      Failures(paths[..n], outcomes[..n]) +
        (if IsCalledProcessError(outcomes[n]) then [ConversionError(paths[n], outcomes[n].returnCode)] else [])
  }

  lemma FailuresSnoc(paths: seq<String>, outcomes: seq<RunOutcome>, i: nat)
    requires |outcomes| == |paths| && i < |paths|
    ensures Failures(paths[..i + 1], outcomes[..i + 1]) == Failures(paths[..i], outcomes[..i]) +
      (if IsCalledProcessError(outcomes[i]) then [ConversionError(paths[i], outcomes[i].returnCode)] else [])
  {
    assert paths[..i + 1][..i] == paths[..i];
    assert outcomes[..i + 1][..i] == outcomes[..i];
  }

  lemma CommandsSnoc(scriptName: String, paths: seq<String>, i: nat)
    requires i < |paths|
    ensures Commands(scriptName, paths[..i + 1]) ==
      Commands(scriptName, paths[..i]) + [Command(scriptName, paths[i])]
  {
    var longer, shorter := Commands(scriptName, paths[..i + 1]), Commands(scriptName, paths[..i]);
    forall k | 0 <= k < i
      ensures longer[k] == shorter[k]
    {
      assert paths[..i + 1][k] == paths[..i][k];
    }
  }

  /** An exception raised after only exits is the first one that escapes. */
  lemma FirstEscapeAt(outcomes: seq<RunOutcome>, i: nat)
    requires i < |outcomes| && i <= FirstEscape(outcomes) && outcomes[i].Raised?
    ensures FirstEscape(outcomes) == i
  {
  }

  /**
    `apply_bionic_reading`: run the converter on each path in turn; a
    `CalledProcessError` is recorded and the loop goes on; any other exception
    leaves the loop; the `finally` clause stops the spinner on both exits.
   */
  method ApplyBionicReading(ebookPaths: seq<String>, bionicScriptName: Option<String>, outcomes: seq<RunOutcome>)
    returns (report: DispatchReport)
    requires |outcomes| == |ebookPaths|
    ensures var n, scriptName := FirstEscape(outcomes), ScriptName(bionicScriptName);
      var attempted := if n < |ebookPaths| then n + 1 else n;
      && report.invoked == Commands(scriptName, ebookPaths[..attempted])
      && report.errors == Failures(ebookPaths[..n], outcomes[..n])
      && report.escaped == (if n < |ebookPaths| then Some(outcomes[n].exception) else None)
    ensures report.spinnerStopped
    ensures (forall k :: 0 <= k < |outcomes| ==> outcomes[k].Exited?) ==>
      report.invoked == Commands(ScriptName(bionicScriptName), ebookPaths) &&
      report.errors == Failures(ebookPaths, outcomes) &&
      report.escaped == None
  {
    var scriptName := ScriptName(bionicScriptName);
    var loader := new LoadingAnimation(Some("Converting your books now"));
    var invoked: seq<seq<String>> := [];
    var errors: seq<ConversionError> := [];
    var escaped: Option<String> := None;
    var i := 0;
    while i < |ebookPaths|
      invariant i <= |ebookPaths| && i <= FirstEscape(outcomes)
      invariant invoked == Commands(scriptName, ebookPaths[..i])
      invariant errors == Failures(ebookPaths[..i], outcomes[..i])
      invariant escaped == None
    {
      var ebookPath := ebookPaths[i];
      var command := Command(scriptName, ebookPath);
      CommandsSnoc(scriptName, ebookPaths, i);
      invoked := invoked + [command];
      var outcome := outcomes[i];
      if outcome.Raised? {
        FirstEscapeAt(outcomes, i);
        escaped := Some(outcome.exception);
        break;
      }
      FailuresSnoc(ebookPaths, outcomes, i);
      if outcome.returnCode != 0 {
        errors := errors + [ConversionError(ebookPath, outcome.returnCode)];
      }
      i := i + 1;
    }
    // finally:
    loader.Stop();
    assert ebookPaths[..|ebookPaths|] == ebookPaths && outcomes[..|outcomes|] == outcomes;
    report := DispatchReport(invoked, errors, escaped, loader.done);
  }

  /** The marks `IsCalledProcessError` puts on each outcome. */
  function FailureFlags(outcomes: seq<RunOutcome>): (flags: seq<bool>)
    ensures |flags| == |outcomes|
  {
    seq(|outcomes|, k requires 0 <= k < |outcomes| => IsCalledProcessError(outcomes[k]))
  }

  /**
    One error per failing invocation and none for the others: the `k`-th
    recorded error is the path and return code of the `k`-th failing
    position, and the failing positions are exactly those `KeptPositions` lists.
   */
  lemma {:induction false} FailuresAtFailingPositions(paths: seq<String>, outcomes: seq<RunOutcome>)
    requires |outcomes| == |paths|
    ensures var idx, errs := KeptPositions(FailureFlags(outcomes)), Failures(paths, outcomes);
      |errs| == |idx| &&
      forall k :: 0 <= k < |idx| ==>
        idx[k] < |paths| && IsCalledProcessError(outcomes[idx[k]]) &&
        errs[k] == ConversionError(paths[idx[k]], outcomes[idx[k]].returnCode)
  {
    var flags := FailureFlags(outcomes);
    var idx := KeptPositions(flags);
    forall k | 0 <= k < |idx|
      ensures idx[k] < |paths| && IsCalledProcessError(outcomes[idx[k]])
    {
      assert idx[k] in idx;
    }
    if paths != [] {
      var n := |paths| - 1;
      FailuresAtFailingPositions(paths[..n], outcomes[..n]);
      assert FailureFlags(outcomes)[..n] == FailureFlags(outcomes[..n]);
    }
  }

  /**
    Dispatcher isolation: when exactly the `m`-th converter run fails with a
    `CalledProcessError` and the others succeed, exactly one error is recorded,
    for the `m`-th path.
   */
  lemma {:induction false} SingleFailure(paths: seq<String>, outcomes: seq<RunOutcome>, m: nat)
    requires |outcomes| == |paths| && m < |paths|
    requires forall k :: 0 <= k < |outcomes| ==> outcomes[k].Exited?
    requires forall k :: 0 <= k < |outcomes| && k != m ==> outcomes[k].returnCode == 0
    requires outcomes[m].returnCode != 0
    ensures Failures(paths, outcomes) == [ConversionError(paths[m], outcomes[m].returnCode)]
  {
    var n := |paths| - 1;
    if m == n {
      NoFailures(paths[..n], outcomes[..n]);
    } else {
      SingleFailure(paths[..n], outcomes[..n], m);
    }
  }

  /** A batch whose converter runs all succeed records no error. */
  lemma {:induction false} NoFailures(paths: seq<String>, outcomes: seq<RunOutcome>)
    requires |outcomes| == |paths|
    requires forall k :: 0 <= k < |outcomes| ==> outcomes[k] == Exited(0)
    ensures Failures(paths, outcomes) == []
  {
    if paths != [] {
      var n := |paths| - 1;
      NoFailures(paths[..n], outcomes[..n]);
    }
  }

  /** Two paths, the converter exiting 0 for the first and 1 for the second. */
  method TwoFileScenario(f1: String, f2: String) returns (report: DispatchReport)
    ensures report.invoked == [["python", "apply_bioread.py", f1], ["python", "apply_bioread.py", f2]]
    ensures report.errors == [ConversionError(f2, 1)]
    ensures report.escaped == None && report.spinnerStopped
  {
    var paths, outcomes := [f1, f2], [Exited(0), Exited(1)];
    SingleFailure(paths, outcomes, 1);
    var commands := Commands("apply_bioread.py", paths);
    assert commands[0] == Command("apply_bioread.py", f1) && commands[1] == Command("apply_bioread.py", f2);
    assert FirstEscape(outcomes) == 2 by {
      assert outcomes[1..] == [Exited(1)] && outcomes[1..][1..] == [];
    }
    report := ApplyBionicReading(paths, Some("apply_bioread.py"), outcomes);
    assert paths[..2] == paths && outcomes[..2] == outcomes;
  }

  /**
    A launch error on the second of three paths: the third is never attempted,
    the first path's failure stays recorded, the exception escapes, and the
    spinner is stopped all the same.
   */
  method EscapeScenario(f1: String, f2: String, f3: String) returns (report: DispatchReport)
    ensures report.invoked == [["python", "apply_bioread.py", f1], ["python", "apply_bioread.py", f2]]
    ensures report.errors == [ConversionError(f1, 2)]
    ensures report.escaped == Some("FileNotFoundError") && report.spinnerStopped
  {
    var outcomes := [Exited(2), Raised("FileNotFoundError"), Exited(0)];
    assert FirstEscape(outcomes) == 1 by {
      assert outcomes[1..][0].Raised?;
    }
    report := ApplyBionicReading([f1, f2, f3], Some("apply_bioread.py"), outcomes);
    assert [f1, f2, f3][..2] == [f1, f2];
    assert [f1, f2, f3][..1] == [f1];
    assert outcomes[..1] == [Exited(2)];
  }

  /** The flag starts false, and one or two calls of `stop()` leave it true. */
  method SpinnerLifecycle() returns (initially: bool, afterStop: bool, afterSecondStop: bool)
    ensures !initially && afterStop && afterSecondStop
  {
    var loader := new LoadingAnimation(Some("Converting your books now"));
    initially := loader.done;
    loader.Stop();
    afterStop := loader.done;
    loader.Stop();
    afterSecondStop := loader.done;
  }
}
