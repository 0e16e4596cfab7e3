/** The diagnostic checks of aros: the result record, the three checks as
    decisions over what they observe, the runner that orders them and the
    mapping from results to a process exit code.

    What the checks observe is passed in as an `Environment`: the
    interpreter's major and minor version, the set of paths that exist on
    the filesystem, and the operating-system error (if any) that writing or
    removing the probe file raises. */
module Checks {
  import Text

  datatype Option<T> = None | Some(value: T)

  /** A value, or the message of the exception the source raises. */
  datatype Result<T> = Success(value: T) | Failure(message: string)

  /** The closed set of statuses a check can report. */
  datatype Status = Ok | Warn | Error

  datatype CheckResult = CheckResult(name: string, status: Status, details: string)

  /** The status strings the record accepts. */
  const SupportedStatuses: set<string> := {"ok", "warn", "error"}

  function StatusText(s: Status): (t: string)
    ensures t in SupportedStatuses
  {
    match s
    case Ok => "ok"
    case Warn => "warn"
    case Error => "error"
  }

  /** Reads a status string; exactly the three supported spellings are
      accepted, each as the status it spells. */
  function ParseStatus(t: string): (r: Option<Status>)
    ensures r.Some? <==> t in SupportedStatuses
    ensures r.Some? ==> StatusText(r.value) == t
  {
    if t == "ok" then Some(Ok)
    else if t == "warn" then Some(Warn)
    else if t == "error" then Some(Error)
    else None
  }

  /** Printing a status and reading it back gives the same status. */
  lemma ParseStatusText(s: Status)
    ensures ParseStatus(StatusText(s)) == Some(s)
  {
  }

  /** Building a `CheckResult` from a status string: any string other than
      `ok`, `warn` or `error` is rejected with the source's message. */
  function NewCheckResult(name: string, status: string, details: string): (r: Result<CheckResult>)
    ensures r.Success? <==> status in SupportedStatuses
    ensures r.Success? ==> r.value.name == name && r.value.details == details
    ensures r.Success? ==> StatusText(r.value.status) == status
    ensures r.Failure? ==> r.message == "Unsupported status '" + status + "' for check '" + name + "'"
  {
    match ParseStatus(status)
    case None => Failure("Unsupported status '" + status + "' for check '" + name + "'")
    case Some(s) => Success(CheckResult(name, s, details))
  }

  /** Every result value is one the validating constructor builds from its
      own status string: no result carries a status outside the three. */
  lemma NewCheckResultComplete(r: CheckResult)
    ensures NewCheckResult(r.name, StatusText(r.status), r.details) == Success(r)
  {
  }

  // ---------------------------------------------------------------------
  // The observations

  datatype Environment = Environment(
    major: nat,
    minor: nat,
    paths: set<string>,
    writeError: Option<string>,
    unlinkError: Option<string>)

  // ---------------------------------------------------------------------
  // Interpreter version

  const PythonVersionName := "python-version"
  const MinimumMajor: nat := 3
  const MinimumMinor: nat := 10
  const Minimum: seq<int> := [MinimumMajor, MinimumMinor]

  /** `a` is below `b` in lexicographic order, decided at position `k`:
      the two agree before `k`, and there `a` has either ended while `b`
      goes on, or holds the smaller component. */
  ghost predicate LexBelowAt(a: seq<int>, b: seq<int>, k: nat) {
    k <= |a| && k < |b| && a[..k] == b[..k] && (k == |a| || a[k] < b[k])
  }

  /** Python's `<` on tuples, computed as CPython does it: walk both tuples
      while the components agree; the first differing component decides,
      and a tuple that runs out first is the smaller one. */
  predicate TupleLess(a: seq<int>, b: seq<int>): (r: bool)
    ensures r <==> exists k: nat :: LexBelowAt(a, b, k)
    decreases |a|
  {
    if |a| == 0 then
      assert |b| > 0 ==> LexBelowAt(a, b, 0);
      |b| > 0
    else if |b| == 0 then false
    else if a[0] != b[0] then
      assert a[0] < b[0] ==> LexBelowAt(a, b, 0);
      assert forall k: nat :: LexBelowAt(a, b, k) ==> k == 0;
      a[0] < b[0]
    else
      var r := TupleLess(a[1..], b[1..]);
      assert forall k: nat :: LexBelowAt(a[1..], b[1..], k) ==> LexBelowAt(a, b, k + 1) by {
        forall k: nat | LexBelowAt(a[1..], b[1..], k) ensures LexBelowAt(a, b, k + 1) {
          assert a[..k + 1] == [a[0]] + a[1..][..k];
          assert b[..k + 1] == [b[0]] + b[1..][..k];
        }
      }
      assert forall k: nat :: LexBelowAt(a, b, k) ==> k > 0 && LexBelowAt(a[1..], b[1..], k - 1) by {
        forall k: nat | LexBelowAt(a, b, k) ensures k > 0 && LexBelowAt(a[1..], b[1..], k - 1) {
          assert a[1..][..k - 1] == a[..k][1..];
          assert b[1..][..k - 1] == b[..k][1..];
        }
      }
      r
  }

  /** The version comparison in closed form: `(major, minor) < (3, 10)`
      holds exactly below 3.10, and whatever follows minor in the version
      tuple (micro, serial) never changes it. */
  lemma BelowMinimum(major: nat, minor: nat, rest: seq<int>)
    ensures TupleLess([major, minor] + rest, Minimum) <==>
      major < MinimumMajor || (major == MinimumMajor && minor < MinimumMinor)
  {
    var v := [major, minor] + rest;
    assert v[1..] == [minor] + rest;
    assert v[1..][1..] == rest;
    assert Minimum[1..] == [MinimumMinor as int];
    assert Minimum[1..][1..] == [];
    if major == MinimumMajor {
      assert TupleLess(v, Minimum) == TupleLess([minor] + rest, [MinimumMinor as int]);
      if minor == MinimumMinor {
        assert TupleLess([minor] + rest, [MinimumMinor as int]) == TupleLess(rest, []);
      }
    }
  }

  /** `f"{major}.{minor}"`: splitting it at the dot gives back the two
      rendered numbers, which read back as `major` and `minor`
      (`Text.DecimalRoundTrip`). */
  function VersionText(major: nat, minor: nat): (s: string)
    ensures Text.Split(s, '.') == [Text.NatToString(major), Text.NatToString(minor)]
  {
    var ma := Text.NatToString(major);
    var mi := Text.NatToString(minor);
    assert '.' !in ma && '.' !in mi;
    Text.SplitFirst(ma, '.', mi);
    Text.SplitNone(mi, '.');
    ma + "." + mi
  }

  function PythonVersionCheck(major: nat, minor: nat): (r: CheckResult)
    ensures r.name == PythonVersionName
    ensures r.status == Error <==> major < 3 || (major == 3 && minor < 10)
    ensures r.status != Warn
  {
    BelowMinimum(major, minor, []);
    assert [major, minor] + [] == [major, minor];
    if TupleLess([major, minor], Minimum) then
      CheckResult(PythonVersionName, Error,
        "Python " + VersionText(major, minor) + " is below required "
        + VersionText(MinimumMajor, MinimumMinor))
    else
      CheckResult(PythonVersionName, Ok, "Python " + VersionText(major, minor) + " detected")
  }

  lemma MinimumText()
    ensures VersionText(MinimumMajor, MinimumMinor) == "3.10"
  {
  }

  /** The details always name the detected version; when it is too old they
      also name the required one, 3.10. */
  lemma PythonVersionDetails(major: nat, minor: nat)
    ensures Text.IsInfix(VersionText(major, minor), PythonVersionCheck(major, minor).details)
    ensures PythonVersionCheck(major, minor).status == Error
        ==> Text.IsInfix("3.10", PythonVersionCheck(major, minor).details)
  {
    var r := PythonVersionCheck(major, minor);
    var v := VersionText(major, minor);
    var m := VersionText(MinimumMajor, MinimumMinor);
    if r.status == Error {
      assert r.details == "Python " + v + (" is below required " + m);
      Text.InfixOfConcat("Python ", v, " is below required " + m);
      assert r.details == ("Python " + v + " is below required ") + m + "";
      Text.InfixOfConcat("Python " + v + " is below required ", m, "");
      MinimumText();
    } else {
      Text.InfixOfConcat("Python ", v, " detected");
    }
  }

  // ---------------------------------------------------------------------
  // README presence

  const ReadmeName := "readme-present"

  /** `Path(base_dir) / "README.md"`: a path that ends in the file name
      and is never the probe file or /tmp itself. */
  function ReadmePath(baseDir: string): (p: string)
    ensures Text.IsSuffix("/README.md", p)
    ensures p != ProbePath && p != TmpDir
  {
    var p := baseDir + "/README.md";
    assert p[|p| - 1] == 'd' && ProbePath[|ProbePath| - 1] == 't';
    p
  }

  function ReadmeCheck(baseDir: string, paths: set<string>): (r: CheckResult)
    ensures r.name == ReadmeName
    ensures r.status == Warn <==> ReadmePath(baseDir) !in paths
    ensures r.status != Error
  {
    if ReadmePath(baseDir) !in paths then
      CheckResult(ReadmeName, Warn, "README.md is missing; add one to describe the project")
    else
      CheckResult(ReadmeName, Ok, "README.md detected")
  }

  // ---------------------------------------------------------------------
  // Temporary-directory writability

  const TmpName := "tmp-writeable"
  const TmpDir := "/tmp"
  const ProbePath := "/tmp/aros_tmp_probe.txt"
  const TmpErrorPrefix := "Failed to write to /tmp: "

  /** The check's result and the paths that exist after it ran. */
  datatype Probe = Probe(result: CheckResult, paths: set<string>)

  /** Writes the probe file and removes it. The write is attempted only
      when /tmp exists and the removal only after a successful write; the
      first operating-system error ends the check. A failed write is taken
      to leave no file behind. */
  function TmpWriteCheck(paths: set<string>, writeError: Option<string>, unlinkError: Option<string>)
    : (p: Probe)
    ensures p.result.name == TmpName
    ensures p.result.status == Warn <==> TmpDir !in paths
    ensures p.result.status == Error <==> TmpDir in paths && (writeError.Some? || unlinkError.Some?)
    ensures p.result.status == Error ==>
      p.result.details == TmpErrorPrefix + (if writeError.Some? then writeError.value else unlinkError.value)
    ensures p.result.status == Ok ==> ProbePath !in p.paths
    ensures p.paths - {ProbePath} == paths - {ProbePath}
  {
    if TmpDir !in paths then
      Probe(CheckResult(TmpName, Warn, "/tmp is missing; cannot verify temporary file writes"), paths)
    else if writeError.Some? then
      Probe(CheckResult(TmpName, Error, TmpErrorPrefix + writeError.value), paths)
    else
      var written := paths + {ProbePath};
      if unlinkError.Some? then
        Probe(CheckResult(TmpName, Error, TmpErrorPrefix + unlinkError.value), written)
      else
        Probe(CheckResult(TmpName, Ok, "Temporary directory is writeable"), written - {ProbePath})
  }

  /** An error's details carry the operating-system message. */
  lemma TmpErrorDetails(paths: set<string>, writeError: Option<string>, unlinkError: Option<string>, msg: string)
    requires TmpDir in paths
    requires writeError == Some(msg) || (writeError == None && unlinkError == Some(msg))
    ensures TmpWriteCheck(paths, writeError, unlinkError).result.status == Error
    ensures Text.IsInfix(msg, TmpWriteCheck(paths, writeError, unlinkError).result.details)
  {
    Text.InfixOfConcat(TmpErrorPrefix, msg, "");
    assert TmpErrorPrefix + msg + "" == TmpErrorPrefix + msg;
  }

  // ---------------------------------------------------------------------
  // Runner

  /** The three checks, always in the same order. */
  function RunChecks(baseDir: string, env: Environment): (r: seq<CheckResult>)
    ensures |r| == 3
    ensures r[0].name == PythonVersionName && r[1].name == ReadmeName && r[2].name == TmpName
    ensures r[1].status == Warn <==> ReadmePath(baseDir) !in env.paths
  {
    [ PythonVersionCheck(env.major, env.minor),
      ReadmeCheck(baseDir, env.paths),
      TmpWriteCheck(env.paths, env.writeError, env.unlinkError).result ]
  }

  /** The paths that exist once the checks have run. */
  function PathsAfterRun(env: Environment): (after: set<string>)
    ensures after - {ProbePath} == env.paths - {ProbePath}
    ensures TmpDir !in env.paths ==> after == env.paths
    ensures TmpDir in env.paths && env.writeError == None && env.unlinkError == None ==>
      ProbePath !in after
  {
    TmpWriteCheck(env.paths, env.writeError, env.unlinkError).paths
  }

  /** Only the README check looks at the base directory. */
  lemma RunChecksBaseDir(d1: string, d2: string, env: Environment)
    ensures RunChecks(d1, env)[0] == RunChecks(d2, env)[0]
    ensures RunChecks(d1, env)[2] == RunChecks(d2, env)[2]
    ensures (ReadmePath(d1) in env.paths <==> ReadmePath(d2) in env.paths) ==>
      RunChecks(d1, env) == RunChecks(d2, env)
  {
  }

  /** Running the checks a second time, with the filesystem the first run
      left and the same operating-system behaviour, gives the same results:
      the probe leaves nothing that another check sees. */
  lemma RunChecksIdempotent(baseDir: string, env: Environment)
    ensures RunChecks(baseDir, env.(paths := PathsAfterRun(env))) == RunChecks(baseDir, env)
  {
    assert TmpDir != ProbePath by { assert |TmpDir| != |ProbePath|; }
    var after := PathsAfterRun(env);
    assert ReadmePath(baseDir) in after <==> ReadmePath(baseDir) in env.paths by {
      assert (ReadmePath(baseDir) in after - {ProbePath}) <==> (ReadmePath(baseDir) in env.paths - {ProbePath});
    }
    assert TmpDir in after <==> TmpDir in env.paths by {
      assert (TmpDir in after - {ProbePath}) <==> (TmpDir in env.paths - {ProbePath});
    }
  }

  // ---------------------------------------------------------------------
  // Exit code

  /** `any(result.status == "error" for result in results)`. */
  function HasError(results: seq<CheckResult>): (b: bool)
    ensures b <==> exists i :: 0 <= i < |results| && results[i].status == Error
    decreases |results|
  {
    if results == [] then false
    else results[0].status == Error || HasError(results[1..])
  }

  function ExitCode(results: seq<CheckResult>): (code: int)
    ensures code == 0 || code == 1
    ensures code == 1 <==> exists i :: 0 <= i < |results| && results[i].status == Error
    ensures code == 0 <==> forall i :: 0 <= i < |results| ==> results[i].status != Error
  {
    if HasError(results) then 1 else 0
  }

  /** The exit code does not depend on the order of the results. */
  lemma ExitCodeReorder(a: seq<CheckResult>, b: seq<CheckResult>)
    requires multiset(a) == multiset(b)
    ensures ExitCode(a) == ExitCode(b)
  {
    forall i | 0 <= i < |a| && a[i].status == Error
      ensures exists j :: 0 <= j < |b| && b[j].status == Error
    {
      assert a[i] in multiset(a);
      assert a[i] in b;
    }
    forall j | 0 <= j < |b| && b[j].status == Error
      ensures exists i :: 0 <= i < |a| && a[i].status == Error
    {
      assert b[j] in multiset(b);
      assert b[j] in a;
    }
  }

  /** A whole run fails exactly when the interpreter is too old or /tmp
      exists but the probe could not be written or removed; a missing
      README or a missing /tmp never fails it. */
  lemma RunExitCode(baseDir: string, env: Environment)
    ensures ExitCode(RunChecks(baseDir, env)) == 1 <==>
      (env.major < 3 || (env.major == 3 && env.minor < 10)) ||
      (TmpDir in env.paths && (env.writeError.Some? || env.unlinkError.Some?))
  {
    var r := RunChecks(baseDir, env);
    assert r[0].status == PythonVersionCheck(env.major, env.minor).status;
    assert r[2].status == TmpWriteCheck(env.paths, env.writeError, env.unlinkError).result.status;
    assert r[1].status != Error;
  }

  /** With a current interpreter, a README, a writeable /tmp and no
      operating-system errors, every check reports `ok`. */
  lemma HealthyRun(baseDir: string, env: Environment)
    requires !(env.major < 3 || (env.major == 3 && env.minor < 10))
    requires ReadmePath(baseDir) in env.paths && TmpDir in env.paths
    requires env.writeError == None && env.unlinkError == None
    ensures forall i :: 0 <= i < |RunChecks(baseDir, env)| ==> RunChecks(baseDir, env)[i].status == Ok
    ensures ExitCode(RunChecks(baseDir, env)) == 0
  {
  }
}
