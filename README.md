# aros environment checks — a Dafny model

aros is a small diagnostic command-line tool. It runs three fixed checks:

- the interpreter is at least Python 3.10;
- a `README.md` exists in the project root;
- `/tmp` exists and a probe file can be written there and then removed.

It prints one line per check, `<glyph> <name>: <details>`, and exits with 1
when any check reported `error`, and with 0 otherwise.

This project models `aros/checks.py` in three modules:

- `Text` (text.dfy) holds the string helpers: Python's `str.join`,
  `str.split`, substring `in`, and decimal rendering of naturals.
- `Checks` (checks.dfy) holds the closed status set and the validating
  `CheckResult` constructor. It also holds the three checks as functions of
  what they observe, the runner, and the exit-code mapping.
- `Report` (report.dfy) holds the glyph table and the report. The report is
  built by a method with a loop, as the source builds it, and is proved equal
  to the function `ReportText`.

What the checks observe is passed in as a `Checks.Environment`:

- the interpreter's major and minor version (`sys.version_info`);
- the set of paths that exist;
- the operating-system error message, if any, raised by writing the probe
  file and by removing it.

`TmpWriteCheck` returns the paths that exist afterwards as well as its
result. That is how the model states that the success path leaves no probe
file behind.

## Model

| member | source | states |
|---|---|---|
| `Checks.StatusText` | aros/checks.py:17 | every status is spelled as one of the three accepted strings |
| `Checks.ParseStatus` | aros/checks.py:16-18 | a status string is accepted exactly when it is `ok`, `warn` or `error`, and is read as the status it spells |
| `Checks.ParseStatusText` | aros/checks.py:16-18 | printing a status and reading it back gives the same status |
| `Checks.NewCheckResult` | aros/checks.py:10-18 | construction succeeds exactly for the three supported strings and keeps name and details; any other string fails with the source's "Unsupported status" message naming the status and the check |
| `Checks.NewCheckResultComplete` | aros/checks.py:10-18 | every result value is what the validating constructor builds from its own status string, so no result carries another status |
| `Checks.TupleLess` | aros/checks.py:24 | Python's tuple `<`, computed component by component, holds exactly when the tuples agree up to some position where the first has ended while the second goes on, or has the smaller component (lexicographic order) |
| `Checks.BelowMinimum` | aros/checks.py:22-24 | Python tuple comparison `(major, minor, …) < (3, 10)` holds exactly when major < 3, or major = 3 and minor < 10; the components after minor never change it |
| `Checks.PythonVersionCheck` | aros/checks.py:21-34 | named `python-version`; status `error` exactly below 3.10, otherwise `ok`; never `warn` |
| `Checks.VersionText` | aros/checks.py:28 | the `major.minor` text of the version f-strings (also line 33) splits at the dot into exactly the two rendered numbers |
| `Checks.MinimumText` | aros/checks.py:23-28 | the required version renders as `3.10` |
| `Checks.PythonVersionDetails` | aros/checks.py:25-33 | the details always contain the detected `major.minor`; on `error` they also contain the required `3.10` |
| `Checks.ReadmePath` | aros/checks.py:38 | the README location ends in `/README.md` and is never the probe file or `/tmp` itself |
| `Checks.ReadmeCheck` | aros/checks.py:37-49 | named `readme-present`; `warn` exactly when `<base_dir>/README.md` is absent, otherwise `ok`; never `error` |
| `Checks.TmpWriteCheck` | aros/checks.py:52-72 | named `tmp-writeable`; `warn` exactly when `/tmp` is missing; `error` exactly when `/tmp` exists and the write or the removal raised, with details `Failed to write to /tmp: ` followed by the first error raised; on `ok` the probe file no longer exists; no path other than the probe file changes |
| `Checks.TmpErrorDetails` | aros/checks.py:62-70 | when the write, or else the removal, raises with a message, the result is `error` and its details contain that message |
| `Checks.RunChecks` | aros/checks.py:75-81 | exactly three results, named `python-version`, `readme-present`, `tmp-writeable` in that order; the second is `warn` exactly when the README is missing under `base_dir` |
| `Checks.PathsAfterRun` | aros/checks.py:61-72 | after a run only the probe path may have changed; without `/tmp` nothing changes; with `/tmp` and no OS error the probe file is gone |
| `Checks.RunChecksBaseDir` | aros/checks.py:75-81 | the first and third results do not depend on `base_dir`; two base directories that agree on README presence give identical runs |
| `Checks.RunChecksIdempotent` | aros/checks.py:75-81 | a second run on the filesystem the first run left, with the same OS behaviour, gives the same results |
| `Checks.HasError` | aros/checks.py:96 | true exactly when some result has status `error` |
| `Checks.ExitCode` | aros/checks.py:95-97 | returns 0 or 1; 1 exactly when some result has status `error`; 0 exactly when none does, which includes the empty, all-`ok` and `ok`+`warn` inputs |
| `Checks.ExitCodeReorder` | aros/checks.py:95-97 | any reordering of the results gives the same exit code |
| `Checks.RunExitCode` | aros/checks.py:75-97 | a full run exits with 1 exactly when the interpreter is older than 3.10, or `/tmp` exists and the probe write or removal failed; a missing README or a missing `/tmp` never makes it fail |
| `Checks.HealthyRun` | tests/test_checks.py:8-18 | with a current interpreter, a README, a writeable `/tmp` and no OS errors, all three checks report `ok` and the exit code is 0 |
| `Report.StatusGlyph` | aros/checks.py:86-89 | the glyph table lookup gives the `❓` fallback exactly for strings outside the three statuses; every glyph is non-empty and contains no newline |
| `Report.Glyph` | aros/checks.py:86-89 | `ok` is shown as `✅`, `warn` as `⚠️` (two code points) and `error` as `❌`; the `❓` fallback never appears for a result |
| `Report.FormatLine` | aros/checks.py:90 | the line starts with the status glyph and a space, and contains a line break exactly when the name or the details do |
| `Report.LineStatusOfFormatLine` | aros/checks.py:86-90 | the glyph at the head of a rendered line identifies the status of the result it renders |
| `Report.ReportText` | aros/checks.py:84-92 | the report is empty exactly when there are no results; otherwise it starts with the first result's line and ends with the last result's line, with no trailing newline |
| `Report.FormatReport` | aros/checks.py:84-92 | the loop that builds the lines and joins them yields exactly `ReportText` |
| `Report.LinesWithoutBreak` | aros/checks.py:88-90 | no appended line contains a line break when no name or details does |
| `Report.ReportSplitsIntoLines` | aros/checks.py:84-92 | for a non-empty list of results in which no name or details contains a newline, splitting the report on newlines gives back one line per result, in input order, line i being result i's `<glyph> <name>: <details>` |
| `Report.ReportOfThree` | tests/test_checks.py:26-35 | a three-result report is the three rendered lines joined by single newlines |
| `Report.ReportOfThreeContains` | tests/test_checks.py:32-35 | each of three results' lines occurs in their report |
| `Report.SampleLineOk` | tests/test_checks.py:27 | the sample `ok` result renders as `✅ alpha: all good` |
| `Report.SampleLineWarn` | tests/test_checks.py:28 | the sample `warn` result renders as `⚠️ beta: something to note` |
| `Report.SampleLineError` | tests/test_checks.py:29 | the sample `error` result renders as `❌ gamma: needs attention` |
| `Report.SampleReportLines` | tests/test_checks.py:26-35 | the report of the three sample results contains `✅ alpha: all good`, `⚠️ beta: something to note` and `❌ gamma: needs attention` |
| `Text.JoinThreeContains` | aros/checks.py:92 | each of three joined parts occurs in the joined string |
| `Text.Join` | aros/checks.py:92 | joining no parts gives `""`; otherwise the result starts with the first part and ends with the last part |
| `Text.NatToString` | aros/checks.py:28 | a version number renders as a non-empty string of decimal digits with no leading zero; it starts with `0` exactly when the number is 0 |
| `Text.DecimalRoundTrip` | aros/checks.py:28 | reading back a rendered number gives the number, so different versions render differently |

## Left out

- `aros/__main__.py` is not part of this model. It parses `--project-root`, prints the report and raises `SystemExit`. That is command-line plumbing with no decisions of its own.
- The filesystem is a set of path strings. `Path.exists`, `write_text` and `unlink` are not modelled beyond their effect on that set. `exists()` is a membership test that always answers. Failures of `write_text` and `unlink` are given as optional error messages.
- Checks.ReadmeCheck: an `OSError` raised by `exists()` itself (for example a `PermissionError` when `base_dir` cannot be searched) is not modelled. In the source that call is outside any `try`, so such an error aborts `run_checks` instead of producing a result.
- Checks.TmpWriteCheck: likewise, an `OSError` raised by `exists()` on `/tmp` is not modelled. It would propagate out of the check, since that call is outside the `try` too.
- The text of an `OSError` is an opaque string: `str(exc)` is not modelled.
- Checks.TmpWriteCheck: a write that raises is taken to create no file. The real `write_text` may leave a file behind if it fails after opening.
- Checks.ReadmePath: `Path(base_dir) / "README.md"` is modelled as `base_dir + "/README.md"`, without path normalisation. For example, `.` is not collapsed.
- Checks.PythonVersionCheck: it takes the major and minor version only. `BelowMinimum` proves that the later integer components of the version tuple cannot change the outcome. The release-level string component is not modelled.
- `format_report` and `exit_code_from_results` accept any iterable. The model takes a sequence.
- Uniqueness of check names within a run is not enforced by the source and is not stated by the model.
