# ExtendedUnrar, modelled in Dafny

ExtendedUnrar is a post-processing script for the NZBGet downloader
(`main.py`). After NZBGet has unpacked a download, the script looks for
RAR archive parts that are still packed. It hands each one to the
configured unrar command. It then scans again, because an extraction can
produce new archives (an archive inside an archive). It stops when a scan
finds nothing new or a call fails. If asked, it then deletes the archive
parts it extracted, and it exits with one of NZBGet's codes:

- 93: success;
- 94: error;
- 95: nothing to do.

The project models that script:

- `pathnames.dfy` (`PathNames`): the path helpers the script relies on.
  - `str.rfind`.
  - The extension that `os.path.splitext` returns on POSIX.
  - `os.path.join` with two arguments.
- `rar_pattern.dfy` (`RarPattern`): `is_rar`. The regular expression
  `\.rar|\.r\d{2,3}$` is matched with `re.match` and `re.IGNORECASE` as a
  small backtracking matcher. It is proved equal to a plain description.
- `preflight.dfy` (`Preflight`): the checks on the environment before any
  file is touched, as a function from the environment map (and the set of
  existing directories) to a verdict.
- `extraction.dfy` (`Extraction`): the extraction engine.
  - The command line, with its inverse.
  - One scan.
  - The class `Run`. Its fields are the script's globals `status`,
    `extract` and `extracted`, and its methods are `unrar_recursively` (still
    recursive) and the deletion loop.
  - The rounds of the recursion, `Rounds`. Each scan is followed by the
    calls on what it found, in order, and the next scan comes only after a
    round without failure.
  - The exit code.

  The unrar command is an oracle `tool`. It takes the command line and the
  current files, and returns either a launch error or an exit code with the
  files it wrote. The engine is written for any archive-part test
  `archivePart`, and the script runs it with `IsRar`.
- `script.dfy` (`Script`): the whole script, from the checks to the exit
  code, with the end state summed up as `Outcome`.
- `scenario.dfy` (`Scenario`): `test_unrar` from `tests.py`. It runs three
  archives with an unrar that always succeeds, and ends with exit code 93 and
  the three text files present.

Termination of the rescans is proved with a ghost `universe`. It is a finite
set that bounds every file the tool can ever write (`StaysWithin`). Each
round that does not fail extracts at least one path that was not extracted
before, so `|universe - Elems(extracted)|` decreases.

The script reads `NZBOP_UNPACK`, `NZBPP_TOTALSTATUS`, `NZBPP_DIRECTORY` and
`NZBOP_UNPACKCLEANUPDISK` without checking that they are set. A missing one
raises a `KeyError`, which ends the script. The model gives that path a
verdict of its own, `KeyMissing` (the script then ends as `Crashed`).

The archive-part test follows the code rather than its one-line description.
Only the second alternative of the pattern is anchored at the end, so every
extension that begins with ".rar" qualifies, ".rarx" included. Python's `$`
also accepts a single newline at the very end.

In `tests.py`, `set_default_env` sets `NZBPO_UNRARPATH` but not
`NZBPO_UNRARCMD`, which the script requires. The test therefore reaches the
extraction only when the environment it inherits supplies `NZBPO_UNRARCMD`:
- `Scenario.TestEnvironmentLacksUnrarCmd` states the exit with code 94
  without it;
- `Scenario.TestUnrar` runs with it present and blank.

## Model

| member | source | states |
|---|---|---|
| `PathNames.Extension` | main.py:108 | the extension `os.path.splitext` returns on POSIX; specified by `PathNames.ExtensionIff` |
| `PathNames.ExtensionIff` | main.py:108 | the splitext extension of a path is a given non-empty `e` exactly when the path ends in `e`, `e` is a dot followed by no dot or '/', and the file name before it is not made of dots only |
| `PathNames.Join` | main.py:103-104 | an absolute name replaces the directory; a relative name follows the directory, with one '/' added only when the directory is not empty and does not already end in one |
| `PathNames.ExtensionOfJoin` | main.py:103-108 | for a plain file name, the joined path has the extension of the name alone |
| `RarPattern.IsRar` | main.py:107-109 | `is_rar`: the pattern applied to the extension; specified by `RarPattern.PatternIff`, `RarPattern.IsRarOfJoin` and the examples below |
| `RarPattern.DigitRun` | main.py:109 | the greedy `\d{2,3}` takes at most the cap, only digits, and stops early only before a non-digit or the end |
| `RarPattern.MatchesVolumeIff` | main.py:109 | the backtracking matcher for `\.r\d{2,3}$` accepts exactly ".r"/".R" followed by two or three digits and nothing else but one final newline |
| `RarPattern.PatternIff` | main.py:109 | the pattern matches exactly the extensions that begin with ".rar" in any case, or have the volume shape above |
| `RarPattern.ExtensionExamples` | main.py:109 | ".RAR", ".r00", ".r123" and ".rarx" match; ".r1", ".r0000" and ".zip" do not |
| `RarPattern.IsRarOfJoin` | main.py:103-109 | a file found by the walk is classified by its own name; the directory in front never matters |
| `RarPattern.RarSuffixIsRar` | main.py:107-109 | a path ending in ".rar" after a character other than '.' or '/' is an archive part |
| `RarPattern.PathExamples` | main.py:107-109 | "/dl/movie.part01.rar" and "/dl/movie.r07" are archive parts |
| `RarPattern.NonArchivePathExamples` | main.py:107-109 | "/dl/.rar" (a dot file without extension) and "/dl/x.rar/readme" (a dot in a directory) are not |
| `Preflight.FirstMissing` | main.py:53-59 | no option is reported exactly when all are present; a reported option is missing and every one before it in the list is present |
| `Preflight.UnrarCommand` | main.py:66-72 | the script's UnrarCmd when it is not blank, the host's otherwise |
| `Preflight.Check` | main.py:38-95 | exit 94 exactly for an old host, a missing required option or Unpack off; exit 95 exactly for a failed download or a missing directory; the run proceeds exactly when every check passes and every read variable exists, with the configured command, directory, wait time and deletion setting (the crash of the sleep on a bad wait time is not modelled); a KeyError names an absent variable |
| `Extraction.Command` | main.py:136 | the command line; its inverse is `Extraction.SplitCommand`, and `Extraction.SplitCommandRoundTrip` and `Extraction.SplitCommandSound` tie the two together |
| `Extraction.Succeeded` | main.py:139 | return code 0 or 10; `Extraction.Run.ExtractOne` states that a call succeeds exactly when it holds |
| `Extraction.SplitCommand` | main.py:136 | the archive and destination read back from a command line contain no double quote |
| `Extraction.SplitCommandRoundTrip` | main.py:136 | when neither path contains a double quote, the command line gives back the prefix, the archive and the destination |
| `Extraction.SplitCommandSound` | main.py:136 | every string that splits is the command line built from its parts |
| `Extraction.LatestIsCreated` | main.py:132-151 | replaying the call log from the starting tree gives the starting tree plus every file the calls wrote |
| `Extraction.CreatedByEach` | main.py:138 | the files of any one call are among those the whole log wrote |
| `Extraction.RemainingShrinks` | main.py:153 | extracting a new path shrinks the not-yet-extracted part of the universe, so the recursion ends |
| `Extraction.Scan` | main.py:122-126 | the candidates are exactly the files of the tree that are archive parts and not yet extracted, each once |
| `Extraction.ScanFound` | main.py:122-126 | what `Scan` promises makes its result a scan of the tree in the sense of `Extraction.ScanOf`, the form the round structure uses |
| `Extraction.EmptyRound` | main.py:128-130 | a scan that finds nothing is the last round and ends the run without a call and without failure |
| `Extraction.FailedRound` | main.py:132-151 | a round that stopped at its i-th candidate, after the first i succeeded, is the last round of the run and the one that failed |
| `Extraction.FullRound` | main.py:132-153 | a round in which every candidate was extracted, followed by the rounds of the recursive call, which began by scanning the tree that round left, makes up the rounds of the whole call |
| `Extraction.FirstRoundFirst` | main.py:122-153 | a call on a file that was not in the tree at a scan comes only after every candidate of that scan went to the tool |
| `Extraction.Run.constructor` | main.py:112-115 | a run starts with status 0, extract 0, nothing extracted and no call made |
| `Extraction.Run.UnrarRecursively` | main.py:118-153 | the call log and `extracted` only grow; a clean end has status 0, extract 1, only successful calls (call k extracted `extracted[k]`) and every archive part in the tree extracted; any other end has status 1, the first failing call last, and extract 1 exactly when something was extracted; the calls made are the rounds of the scans `found` (`Extraction.Rounds`): scan r finds exactly the archive parts not yet extracted in the tree the previous round left, each once, and its round hands them to the tool in that order; a scan follows only a round in which every call succeeded, and the run ends at an empty scan or inside the last round at its first failure |
| `Extraction.Run.Settled` | main.py:118-153 | at either end, the tree is the start plus the files written, only the last call can have failed and its path was not extracted before, and no archive part went to the tool twice |
| `Extraction.Run.ExtractRound` | main.py:132-151 | the call log only grows; a round without failure appends all the candidates to `extracted` in order; a failure comes on some candidate `rars[i]` after `rars[..i]` were all extracted, and stops the round with status 1 |
| `Extraction.Run.ExtractOne` | main.py:133-151 | one call of the tool on this path's command line and the current tree is appended to the log, and the files it wrote join the tree; it succeeds exactly when the return code is 0 or 10, which appends the path to `extracted` and sets extract; any other code or a launch error leaves `extracted` as it was and sets status 1 |
| `Extraction.Run.DeleteLeftovers` | main.py:160-169 | deletion runs only with extract 1 and "yes"; the tree and status become what removing each extracted path in order gives |
| `Extraction.RemoveEach` | main.py:162-169 | removal only takes paths away, and only extracted ones |
| `Extraction.RemoveEachExact` | main.py:162-169 | exactly the extracted paths that exist and can be removed disappear; a failure is reported exactly when some extracted path is absent or cannot be removed |
| `Extraction.ExitCode` | main.py:171-174 | 93 exactly when status is 0, 95 otherwise |
| `Script.RunScript` | main.py:38-174 | a stop in the checks touches no file; otherwise the configured command runs on `IsRar` archive parts and the end state is `Outcome`, with the scans the run made |
| `Script.ExtractAndTidy` | main.py:112-174 | after the checks: the call log is honest and the end state is `Outcome` (the calls come in rounds, one per scan, starting from the tree at the start; stop at the first failure, on a path not extracted before; fixed point on a clean end; deletion of exactly the removable extracted parts; exit code) |
| `Script.TidyOutcome` | main.py:160-174 | the facts the extraction and the deletion loop leave, including its rounds, add up to `Outcome` |
| `Script.SuccessLeavesNoArchive` | main.py:160-172 | after a success with deletion enabled, no archive part is left |
| `Script.SuccessIsFixedPoint` | main.py:128-130 | after a success, every file left was there at the start or was written, and every archive part among them was extracted |
| `Script.EachPathOnce` | main.py:125-141 | no archive part goes to the tool twice in one run |
| `Script.NestedArchivesLater` | main.py:122-153 | a file that was not there at the start, such as an archive an extraction wrote, goes to the tool only after every archive part present at the start has |
| `Script.NeverFailingTool` | main.py:137-153 | with a tool that never fails and deletion off, the exit code is 93, no file is removed, and every archive part present at the start is extracted |
| `Scenario.TestEnvironmentLacksUnrarCmd` | tests.py:67-92 | the test's environment has no UnrarCmd option, so the checks stop with exit 94 |
| `Scenario.TestEnvironmentWithBlankUnrarCmd` | main.py:66-72 | with UnrarCmd blank, the checks pass and the host's "unrar" is used |
| `Scenario.TestOutcome` | tests.py:107-111 | any run of the test's setup exits 93 with test1.txt, test2.txt and test3.txt present |
| `Scenario.TestUnrar` | tests.py:97-113 | the test: exit 93 and the three text files exist |

## Left out

- Sleeping before the scan (main.py:89-95): `Config` records whether to sleep and the wait time as text. Parsing the text with `int(float(...))` and the delay itself are not modelled. Any value that `int(float(...))` or `time.sleep` rejects ends the script with an uncaught exception, and the model does not capture that. Such values are malformed text (`ValueError`), an infinity such as "inf" or "1e400" (`OverflowError`), NaN (`ValueError`) and a negative time such as "-1" (`ValueError` from `time.sleep`). The model lets such a run proceed.
- Printing, flushing and the stdout encoding (main.py:30, 43-44 and the messages throughout) are left out.
- The shell interprets the command line (main.py:138). The oracle `tool` receives the command line as text, and what the shell and unrar make of it is whatever the oracle returns.
- The real file system is a set of full paths:
  - the tree that `os.walk` reaches (main.py:123);
  - `os.path.isdir` (main.py:80) is membership in the parameter `dirs`;
  - `os.remove` (main.py:165) is set difference, failing on paths the parameter `removeFails` names.
- Extraction.Scan: the order of `os.walk` is unspecified; the scan takes the candidates in an arbitrary order, so every order is covered.
- `\d` is ASCII digits only; Python's `\d` also accepts other Unicode decimal digits.
- Paths are POSIX paths; Windows separators and drive letters are not modelled.
- Python's recursion limit on `unrar_recursively` is not modelled.
- Extraction.Run.UnrarRecursively: its termination rests on the assumption that every file the tool can write lies in a finite `universe` (`StaysWithin`). A tool that writes new archives without bound would make the script rescan until Python's recursion limit raises `RecursionError`. The model excludes such a tool.
- Nothing removes or renames a file while the extraction runs. The oracle `tool` can only add files, and the host's own cleanup (`NZBOP_UNPACKCLEANUPDISK`, the reason for the sleep at main.py:88-95) is not modelled. `Extraction.Run.Settled` (the tree is the start plus the files written) and `Present` (every extracted path is still in the tree) hold only because of this. As a result, a removal at main.py:165 fails only when `removeFails` says so, never because the file has vanished.
- The `test_manifest` case of tests.py checks the repository's `manifest.json`, which is not part of this model.
