/** The extraction engine: scan the download directory for archive parts not
    yet extracted, hand each to the external unrar command, and rescan until
    a scan finds nothing new or a call fails; then, if asked, delete the
    extracted archive parts.

    The directory tree is the set of full paths the walk reaches (each is a
    `get_full_path(dirpath, filename)`).  The unrar command is an oracle
    `tool` from the command line and the current tree to either a launch
    error or an exit code with the set of files the call wrote. */
module Extraction {
  import opened PathNames
  import opened Wrappers
  import opened Preflight

  /** The command line handed to the shell for one archive part: the command
      prefix, then the archive and the destination, each in double quotes. */
  function Command(unrarCmd: string, file: Path, workingDir: Path): (cmd: string)
  {
    unrarCmd + " \"" + file + "\" \"" + workingDir + "\""
  }

  /** Reads a command line back from its end: the last quoted word is the
      destination, the quoted word before it the archive, the rest the prefix. */
  function SplitCommand(cmd: string): (r: Option<(string, Path, Path)>)
    ensures r.Some? ==> '"' !in r.value.1 && '"' !in r.value.2
  {
    if |cmd| < 6 || cmd[|cmd| - 1] != '"' then None
    else
      var open2 := RFind(cmd[..|cmd| - 1], '"');
      if open2 < 3 || cmd[open2 - 1] != ' ' || cmd[open2 - 2] != '"' then None
      else
        var open1 := RFind(cmd[..open2 - 2], '"');
        if open1 < 1 || cmd[open1 - 1] != ' ' then None
        else
          var dest := cmd[open2 + 1..|cmd| - 1];
          var file := cmd[open1 + 1..open2 - 2];
          assert forall k :: 0 <= k < |dest| ==> dest[k] == cmd[..|cmd| - 1][open2 + 1 + k];
          assert forall k :: 0 <= k < |file| ==> file[k] == cmd[..open2 - 2][open1 + 1 + k];
          Some((cmd[..open1 - 1], file, dest))
  }

  /** When neither the archive path nor the destination contains a double
      quote, the command line determines all three of its parts. */
  lemma SplitCommandRoundTrip(unrarCmd: string, file: Path, workingDir: Path)
    requires '"' !in file && '"' !in workingDir
    ensures SplitCommand(Command(unrarCmd, file, workingDir)) == Some((unrarCmd, file, workingDir))
  {
    CommandLayout(unrarCmd, file, workingDir);
    SplitLaidOut(Command(unrarCmd, file, workingDir), unrarCmd, file, workingDir);
  }

  /** SplitCommand recovers the pieces of any string laid out as a command
      line whose two quoted words hold no double quote. */
  lemma SplitLaidOut(cmd: string, unrarCmd: string, file: Path, workingDir: Path)
    requires '"' !in file && '"' !in workingDir
    requires var u, f := |unrarCmd|, |file|;
             && |cmd| == u + f + |workingDir| + 6
             && cmd[..u] == unrarCmd && cmd[u] == ' ' && cmd[u + 1] == '"'
             && cmd[u + 2..u + f + 2] == file
             && cmd[u + f + 2] == '"' && cmd[u + f + 3] == ' ' && cmd[u + f + 4] == '"'
             && cmd[u + f + 5..|cmd| - 1] == workingDir && cmd[|cmd| - 1] == '"'
    ensures SplitCommand(cmd) == Some((unrarCmd, file, workingDir))
  {
    var u, f := |unrarCmd|, |file|;
    var open1, open2 := u + 1, u + f + 4;
    var head2 := cmd[..|cmd| - 1];
    forall k | open2 < k < |head2| ensures head2[k] != '"' {
      assert head2[k] == workingDir[k - open2 - 1];
    }
    RFindUnique(head2, '"', open2);
    var head1 := cmd[..open2 - 2];
    forall k | open1 < k < |head1| ensures head1[k] != '"' {
      assert head1[k] == file[k - open1 - 1];
    }
    RFindUnique(head1, '"', open1);
  }

  /** Where the pieces of a command line sit. */
  lemma CommandLayout(unrarCmd: string, file: Path, workingDir: Path)
    ensures var cmd := Command(unrarCmd, file, workingDir);
            var u, f := |unrarCmd|, |file|;
            && |cmd| == u + f + |workingDir| + 6
            && cmd[..u] == unrarCmd && cmd[u] == ' ' && cmd[u + 1] == '"'
            && cmd[u + 2..u + f + 2] == file
            && cmd[u + f + 2] == '"' && cmd[u + f + 3] == ' ' && cmd[u + f + 4] == '"'
            && cmd[u + f + 5..|cmd| - 1] == workingDir && cmd[|cmd| - 1] == '"'
  {
    var cmd := Command(unrarCmd, file, workingDir);
    assert cmd == unrarCmd + [' ', '"'] + file + ['"', ' ', '"'] + workingDir + ['"'];
  }

  /** Whatever SplitCommand accepts is a command line built by Command. */
  lemma SplitCommandSound(cmd: string)
    requires SplitCommand(cmd).Some?
    ensures var parts := SplitCommand(cmd).value;
            cmd == Command(parts.0, parts.1, parts.2)
  {
    var n := |cmd|;
    var open2 := RFind(cmd[..n - 1], '"');
    var open1 := RFind(cmd[..open2 - 2], '"');
    assert cmd[open2] == cmd[..n - 1][open2];
    assert cmd[open1] == cmd[..open2 - 2][open1];
    var parts := SplitCommand(cmd).value;
    var built := Command(parts.0, parts.1, parts.2);
    assert built == parts.0 + [' ', '"'] + parts.1 + ['"', ' ', '"'] + parts.2 + ['"'];
    assert |built| == n;
    forall k | 0 <= k < n ensures built[k] == cmd[k] {
      if k < open1 - 1 {
        assert built[k] == parts.0[k];
      } else if open1 + 1 <= k < open2 - 2 {
        assert built[k] == parts.1[k - open1 - 1];
      } else if open2 + 1 <= k < n - 1 {
        assert built[k] == parts.2[k - open2 - 1];
      }
    }
  }

  /** What one call of the unrar command did. */
  datatype ToolResult =
    | LaunchFailed                               // OSError: the command could not be started
    | Exited(code: int, created: set<Path>)      // its exit code and the files it wrote

  /** Return codes 0 and 10 count as success. */
  predicate Succeeded(r: ToolResult)
  {
    r.Exited? && (r.code == 0 || r.code == 10)
  }

  function CreatedBy(r: ToolResult): set<Path>
  {
    if r.Exited? then r.created else {}
  }

  /** One entry of the run's call log: the archive part, the tree the call
      saw, and what the call did. */
  datatype Call = Call(path: Path, before: set<Path>, result: ToolResult)

  /** Every file the logged calls wrote. */
  ghost function Created(calls: seq<Call>): (written: set<Path>)
  {
    if calls == [] then {} else Created(calls[..|calls| - 1]) + CreatedBy(calls[|calls| - 1].result)
  }

  ghost predicate Distinct(s: seq<Path>)
  {
    forall i, j :: 0 <= i < j < |s| ==> s[i] != s[j]
  }

  ghost function Elems(s: seq<Path>): (elems: set<Path>)
  {
    set p | p in s
  }

  /** Every file the tool can ever write lies in `universe`. */
  ghost predicate StaysWithin(tool: (string, set<Path>) -> ToolResult, universe: set<Path>)
  {
    forall cmd, files :: CreatedBy(tool(cmd, files)) <= universe
  }

  /** The tree after call `c`: the tree it saw plus the files it wrote. */
  ghost function After(c: Call): (files: set<Path>)
  {
    c.before + CreatedBy(c.result)
  }

  /** The tree after the logged calls, replayed from the tree `start`. */
  ghost function Latest(calls: seq<Call>, start: set<Path>): (files: set<Path>)
  {
    if calls == [] then start else After(calls[|calls| - 1])
  }

  /** `c` records one real call of the tool, on an archive part present in
      the tree the call saw. */
  ghost predicate Faithful(c: Call, unrarCmd: string, workingDir: Path,
                           tool: (string, set<Path>) -> ToolResult, archivePart: Path -> bool)
  {
    && c.result == tool(Command(unrarCmd, c.path, workingDir), c.before)
    && archivePart(c.path) && c.path in c.before
  }

  /** The call log is honest call by call, and each call saw the tree that
      the calls before it left behind, starting from `start`. */
  ghost predicate Trace(calls: seq<Call>, start: set<Path>, unrarCmd: string, workingDir: Path,
                        tool: (string, set<Path>) -> ToolResult, archivePart: Path -> bool)
  {
    && (forall k :: 0 <= k < |calls| ==> Faithful(calls[k], unrarCmd, workingDir, tool, archivePart))
    && (calls != [] ==> calls[0].before == start)
    && (forall k :: 0 < k < |calls| ==> calls[k].before == After(calls[k - 1]))
  }

  lemma TraceExtend(calls: seq<Call>, c: Call, start: set<Path>, unrarCmd: string, workingDir: Path,
                    tool: (string, set<Path>) -> ToolResult, archivePart: Path -> bool)
    requires Trace(calls, start, unrarCmd, workingDir, tool, archivePart)
    requires Faithful(c, unrarCmd, workingDir, tool, archivePart) && c.before == Latest(calls, start)
    ensures Trace(calls + [c], start, unrarCmd, workingDir, tool, archivePart)
    ensures Latest(calls + [c], start) == After(c)
  {
  }

  /** Replaying the log from `start` gives `start` plus every file the calls
      wrote. */
  lemma {:induction false} LatestIsCreated(calls: seq<Call>, start: set<Path>, unrarCmd: string,
                                           workingDir: Path, tool: (string, set<Path>) -> ToolResult,
                                           archivePart: Path -> bool)
    requires Trace(calls, start, unrarCmd, workingDir, tool, archivePart)
    ensures Latest(calls, start) == start + Created(calls)
    decreases |calls|
  {
    if calls != [] {
      var earlier := calls[..|calls| - 1];
      assert Trace(earlier, start, unrarCmd, workingDir, tool, archivePart);
      LatestIsCreated(earlier, start, unrarCmd, workingDir, tool, archivePart);
    }
  }

  /** Every call's files are among those the whole log wrote. */
  lemma {:induction false} CreatedByEach(calls: seq<Call>, k: nat)
    requires k < |calls|
    ensures CreatedBy(calls[k].result) <= Created(calls)
    decreases |calls|
  {
    if k < |calls| - 1 {
      var earlier := calls[..|calls| - 1];
      CreatedByEach(earlier, k);
      assert earlier[k] == calls[k];
    }
  }

  /** Call k of the log extracted `extracted[k]`, and nothing was extracted
      twice. */
  ghost predicate SuccessLog(calls: seq<Call>, extracted: seq<Path>)
  {
    && |calls| == |extracted|
    && (forall k :: 0 <= k < |extracted| ==> calls[k].path == extracted[k] && Succeeded(calls[k].result))
    && Distinct(extracted)
  }

  ghost predicate Present(extracted: seq<Path>, files: set<Path>)
  {
    forall p :: p in extracted ==> p in files
  }

  lemma SuccessLogExtend(calls: seq<Call>, extracted: seq<Path>, c: Call)
    requires SuccessLog(calls, extracted) && Succeeded(c.result) && c.path !in extracted
    ensures SuccessLog(calls + [c], extracted + [c.path])
  {
  }

  lemma SuccessLogDistinct(calls: seq<Call>, extracted: seq<Path>)
    requires SuccessLog(calls, extracted)
    ensures forall i, j :: 0 <= i < j < |calls| ==> calls[i].path != calls[j].path
  {
  }

  lemma FailureLogDistinct(calls: seq<Call>, extracted: seq<Path>)
    requires |calls| == |extracted| + 1 && SuccessLog(calls[..|extracted|], extracted)
    requires calls[|extracted|].path !in extracted
    ensures forall i, j :: 0 <= i < j < |calls| ==> calls[i].path != calls[j].path
    ensures forall k :: 0 <= k < |extracted| ==> calls[k].path == extracted[k] && Succeeded(calls[k].result)
  {
    forall k | 0 <= k < |extracted|
      ensures calls[k].path == extracted[k] && Succeeded(calls[k].result)
    {
      assert calls[k] == calls[..|extracted|][k];
    }
  }

  lemma PrefixTransitive<T>(a: seq<T>, b: seq<T>, c: seq<T>)
    requires a <= b && b <= c
    ensures a <= c
  {
    assert c[..|a|] == b[..|a|];
  }

  /** Removing a path from the not-yet-extracted part of a finite universe
      makes that part smaller. */
  lemma RemainingShrinks(universe: set<Path>, done: set<Path>, done': set<Path>, p: Path)
    requires done <= done' <= universe && p in done' && p !in done
    ensures |universe - done'| < |universe - done|
  {
    var rest, rest' := universe - done, universe - done';
    var grown := rest' + {p};
    assert |grown| == |rest'| + 1;
    assert grown <= rest;
    assert rest == grown + (rest - grown);
    assert |rest| == |grown| + |rest - grown|;
  }

  /** One scan: the archive parts of `files` that are not in `extracted`,
      each once, in whatever order the directory walk yields them.
      `archivePart` is the classifier the run uses (`is_rar`). */
  method Scan(files: set<Path>, extracted: seq<Path>, archivePart: Path -> bool) returns (rars: seq<Path>)
    ensures forall p :: p in rars <==> p in files && archivePart(p) && p !in extracted
    ensures forall i, j :: 0 <= i < j < |rars| ==> rars[i] != rars[j]
  {
    rars := [];
    var unvisited := files;
    while unvisited != {}
      invariant unvisited <= files
      invariant forall p :: p in rars <==> p in files - unvisited && archivePart(p) && p !in extracted
      invariant forall i, j :: 0 <= i < j < |rars| ==> rars[i] != rars[j]
      decreases unvisited
    {
      var p :| p in unvisited;
      if archivePart(p) && p !in extracted {
        rars := rars + [p];
      }
      unvisited := unvisited - {p};
    }
  }

  /** The archive parts among `files` that are not in `done`. */
  ghost function Candidates(files: set<Path>, done: seq<Path>, archivePart: Path -> bool): (found: set<Path>)
  {
    set p | p in files && archivePart(p) && p !in done
  }

  /** `rars` is what a scan of `files` finds once `done` are extracted: the
      archive parts not yet extracted, each once. */
  ghost predicate ScanOf(rars: seq<Path>, files: set<Path>, done: seq<Path>, archivePart: Path -> bool)
  {
    Elems(rars) == Candidates(files, done, archivePart) && Distinct(rars)
  }

  /** What `Scan` returns is a scan in the sense of `ScanOf`. */
  lemma ScanFound(rars: seq<Path>, files: set<Path>, done: seq<Path>, archivePart: Path -> bool)
    requires forall p :: p in rars <==> p in files && archivePart(p) && p !in done
    requires forall i, j :: 0 <= i < j < |rars| ==> rars[i] != rars[j]
    ensures ScanOf(rars, files, done, archivePart)
  {
  }

  /** The calls `log` are the rounds of the recursion, the first starting with
      a scan of `files` after `done` were extracted.  Scan r found `scans[r]`;
      its round hands those candidates to the tool in that order; a round in
      which every call succeeded is followed by a scan of the tree the round
      left.  The run ends at a scan that finds nothing, or, when `failed`,
      inside the last round at its first failing call. */
  ghost predicate Rounds(log: seq<Call>, scans: seq<seq<Path>>, files: set<Path>, done: seq<Path>,
                         archivePart: Path -> bool, failed: bool)
    decreases |scans|
  {
    scans != [] &&
    var rars := scans[0];
    ScanOf(rars, files, done, archivePart) &&
    if rars == [] then
      |scans| == 1 && log == [] && !failed
    else if |scans| == 1 && failed then
      && 0 < |log| <= |rars|
      && (forall k :: 0 <= k < |log| ==> log[k].path == rars[k])
      && (forall k :: 0 <= k < |log| - 1 ==> Succeeded(log[k].result))
      && !Succeeded(log[|log| - 1].result)
    else
      && |rars| <= |log|
      && (forall k :: 0 <= k < |rars| ==> log[k].path == rars[k] && Succeeded(log[k].result))
      && Rounds(log[|rars|..], scans[1..], After(log[|rars| - 1]), done + rars, archivePart, failed)
  }

  /** No call can reach a file that was not there at the first scan before
      every archive part that scan found has gone to the tool: a nested
      archive is only ever extracted in a later round. */
  lemma FirstRoundFirst(log: seq<Call>, scans: seq<seq<Path>>, files: set<Path>, done: seq<Path>,
                        archivePart: Path -> bool, failed: bool, k: nat)
    requires Rounds(log, scans, files, done, archivePart, failed)
    requires k < |log| && log[k].path !in files
    ensures forall p :: p in files && archivePart(p) && p !in done ==>
              exists j :: 0 <= j < k && log[j].path == p
  {
    var rars := scans[0];
    assert log[k].path !in Elems(rars);
    if k < |rars| {
      // the call would be on a candidate, which is in `files`
      assert false;
    }
    forall p | p in files && archivePart(p) && p !in done
      ensures exists j :: 0 <= j < k && log[j].path == p
    {
      assert p in Candidates(files, done, archivePart);
      var j :| 0 <= j < |rars| && rars[j] == p;
      assert log[j].path == p;
    }
  }

  /** A round that ended at an empty scan. */
  lemma EmptyRound(rars: seq<Path>, files: set<Path>, done: seq<Path>, archivePart: Path -> bool)
    requires ScanOf(rars, files, done, archivePart) && rars == []
    ensures Rounds([], [rars], files, done, archivePart, false)
  {
  }

  /** A round that stopped at its i-th call, after the calls on rars[..i]
      succeeded: the log from position |done| on is that one round. */
  lemma FailedRound(calls: seq<Call>, extracted: seq<Path>, done: seq<Path>, rars: seq<Path>,
                    files: set<Path>, archivePart: Path -> bool)
    requires ScanOf(rars, files, done, archivePart)
    requires |calls| == |extracted| + 1 && SuccessLog(calls[..|extracted|], extracted)
    requires exists i :: 0 <= i < |rars| && extracted == done + rars[..i] && calls[|extracted|].path == rars[i]
    requires !Succeeded(calls[|extracted|].result)
    ensures Rounds(calls[|done|..], [rars], files, done, archivePart, true)
  {
    var i :| 0 <= i < |rars| && extracted == done + rars[..i] && calls[|extracted|].path == rars[i];
    var log := calls[|done|..];
    forall k | 0 <= k < |log| ensures log[k].path == rars[k] {
      if k < i {
        assert log[k] == calls[..|extracted|][|done| + k];
        assert extracted[|done| + k] == rars[k];
      }
    }
    forall k | 0 <= k < |log| - 1 ensures Succeeded(log[k].result) {
      assert log[k] == calls[..|extracted|][|done| + k];
    }
  }

  /** A round in which every call succeeded: it began with the log `log`
      and the list `done`, and left the log `midLog`, the list `middle` and
      the tree `midTree`; the rounds `rest` of the rest of the run, which
      ended with the log `calls` and the list `extracted`, follow. */
  lemma FullRound(calls: seq<Call>, log: seq<Call>, midLog: seq<Call>, extracted: seq<Path>, done: seq<Path>,
                  middle: seq<Path>, rars: seq<Path>, rest: seq<seq<Path>>, files: set<Path>,
                  midTree: set<Path>, start: set<Path>, archivePart: Path -> bool, failed: bool)
    requires ScanOf(rars, files, done, archivePart) && rars != []
    requires |log| == |done| && middle == done + rars && SuccessLog(midLog, middle)
    requires log <= midLog <= calls && middle <= extracted
    requires midTree == Latest(midLog, start)
    requires Rounds(calls[|midLog|..], rest, midTree, middle, archivePart, failed)
    ensures log <= calls && done <= extracted
    ensures Rounds(calls[|log|..], [rars] + rest, files, done, archivePart, failed)
  {
    PrefixTransitive(log, midLog, calls);
    PrefixTransitive(done, middle, extracted);
    var log := calls[|done|..];
    forall k | 0 <= k < |rars| ensures log[k].path == rars[k] && Succeeded(log[k].result) {
      assert log[k] == midLog[|done| + k];
      assert middle[|done| + k] == rars[k];
    }
    assert log[|rars|..] == calls[|midLog|..];
    assert log[|rars| - 1] == midLog[|midLog| - 1];
    assert ([rars] + rest)[1..] == rest;
  }

  /** The files under the download directory. */
  class FileTree {
    var paths: set<Path>

    constructor (paths: set<Path>)
      ensures this.paths == paths
    {
      this.paths := paths;
    }
  }

  /** One run of the script: the globals `status`, `extract` and `extracted`,
      with the configuration and the tree they act on.  `archivePart` is the
      archive-part test; the script runs the engine with RarPattern.IsRar. */
  class Run {
    const unrarCmd: string
    const workingDir: Path
    const tool: (string, set<Path>) -> ToolResult
    const archivePart: Path -> bool
    const tree: FileTree
    ghost const universe: set<Path>

    var status: int
    var extract: int
    var extracted: seq<Path>
    ghost var calls: seq<Call>    // every call of the tool, in order

    ghost predicate Valid()
      reads this, tree
    {
      StaysWithin(tool, universe) && tree.paths <= universe
    }

    constructor (unrarCmd: string, workingDir: Path, tool: (string, set<Path>) -> ToolResult,
                 archivePart: Path -> bool, tree: FileTree, ghost universe: set<Path>)
      requires StaysWithin(tool, universe) && tree.paths <= universe
      ensures Valid()
      ensures this.unrarCmd == unrarCmd && this.workingDir == workingDir && this.tool == tool
      ensures this.archivePart == archivePart && this.tree == tree && this.universe == universe
      ensures status == 0 && extract == 0 && extracted == [] && calls == []
    {
      this.unrarCmd := unrarCmd;
      this.workingDir := workingDir;
      this.tool := tool;
      this.archivePart := archivePart;
      this.tree := tree;
      this.universe := universe;
      status := 0;
      extract := 0;
      extracted := [];
      calls := [];
    }

    /** The log replays what happened to the tree since `start`, and every
        extracted path is still in the tree. */
    ghost predicate Logged(start: set<Path>)
      reads this, tree
    {
      && Valid()
      && Trace(calls, start, unrarCmd, workingDir, tool, archivePart)
      && tree.paths == Latest(calls, start)
      && Present(extracted, tree.paths)
    }

    /** `extract` records whether some extraction succeeded. */
    ghost predicate ExtractFlagged()
      reads this
    {
      extract == (if extracted == [] then 0 else 1)
    }

    /** The run so far has only succeeded: call k extracted extracted[k]. */
    ghost predicate Clean(start: set<Path>)
      reads this, tree
    {
      Logged(start) && status == 0 && SuccessLog(calls, extracted)
    }

    /** The run stopped at its first failure: one last call, on a path not
        extracted before, failed and status is 1. */
    ghost predicate Aborted(start: set<Path>)
      reads this, tree
    {
      && Logged(start)
      && status == 1
      && |calls| == |extracted| + 1
      && SuccessLog(calls[..|extracted|], extracted)
      && !Succeeded(calls[|extracted|].result)
      && calls[|extracted|].path !in extracted
    }

    /** `unrar_recursively`: scan; an empty scan ends the run cleanly,
        otherwise every candidate goes to the tool in scan order, the first
        failure ends the run, and a round that extracted them all recurses.
        `found` lists what this scan and those of the recursive calls found.
        The recursion ends because each round extracts at least one new path
        from the finite `universe`. */
    method UnrarRecursively(ghost start: set<Path>) returns (ghost found: seq<seq<Path>>)
      requires Clean(start) && ExtractFlagged()
      modifies this, tree
      decreases |universe - Elems(extracted)|
      // the log and the list of extracted paths only grow
      ensures old(calls) <= calls
      ensures old(extracted) <= extracted
      // a clean end: every call succeeded, and the end is a fixed point where
      // every archive part in the tree has been extracted
      ensures status == 0 ==>
                && Clean(start) && extract == 1
                && forall p :: p in tree.paths && archivePart(p) ==> p in extracted
      // otherwise the run stopped at its first failing call
      ensures status != 0 ==> Aborted(start) && ExtractFlagged()
      // the calls made are the rounds of the scans: each round hands its
      // scan's candidates to the tool in order, and the next scan comes only
      // after a round without failure
      ensures Rounds(calls[|old(calls)|..], found, old(tree.paths), old(extracted), archivePart, status != 0)
    {
      var rars := Scan(tree.paths, extracted, archivePart);
      ghost var files, before, log := tree.paths, extracted, calls;
      ScanFound(rars, files, before, archivePart);
      if rars == [] {
        extract := 1;
        found := [rars];
        EmptyRound(rars, files, before, archivePart);
        return;
      }
      var ok := ExtractRound(rars, start);
      if !ok {
        FailedRound(calls, extracted, before, rars, files, archivePart);
        found := [rars];
        return;
      }
      assert rars[0] in extracted;
      RemainingShrinks(universe, Elems(before), Elems(extracted), rars[0]);
      ghost var middle, midLog, midTree := extracted, calls, tree.paths;
      assert midTree == Latest(midLog, start);
      var rest := UnrarRecursively(start);
      FullRound(calls, log, midLog, extracted, before, middle, rars, rest, files, midTree, start, archivePart,
                status != 0);
      found := [rars] + rest;
    }

    /** Whichever way the run ended, the tree grew by exactly the files the
        tool wrote, `extracted` lists the successful calls in order, only a
        last call can have failed, and no archive part was handed to the
        tool twice. */
    lemma Settled(start: set<Path>)
      requires Clean(start) || Aborted(start)
      ensures tree.paths == start + Created(calls)
      ensures Present(extracted, tree.paths)
      ensures status == 0 || status == 1
      ensures |calls| == |extracted| + status
      ensures forall k :: 0 <= k < |extracted| ==> calls[k].path == extracted[k] && Succeeded(calls[k].result)
      ensures status == 1 ==> !Succeeded(calls[|extracted|].result) && calls[|extracted|].path !in extracted
      ensures Distinct(extracted)
      ensures forall i, j :: 0 <= i < j < |calls| ==> calls[i].path != calls[j].path
    {
      LatestIsCreated(calls, start, unrarCmd, workingDir, tool, archivePart);
      if Clean(start) {
        SuccessLogDistinct(calls, extracted);
      } else {
        FailureLogDistinct(calls, extracted);
      }
    }

    /** One round: the candidates of one scan go to the tool in order; the
        round stops at the first launch error or failing return code. */
    method ExtractRound(rars: seq<Path>, ghost start: set<Path>) returns (ok: bool)
      requires Clean(start) && ExtractFlagged()
      requires forall i, j :: 0 <= i < j < |rars| ==> rars[i] != rars[j]
      requires forall p :: p in rars ==> p in tree.paths && archivePart(p) && p !in extracted
      modifies this`status, this`extract, this`extracted, this`calls, tree
      // calls are only ever appended to the log
      ensures old(calls) <= calls
      ensures ok ==> Clean(start) && extracted == old(extracted) + rars
      // a failure comes on some candidate, after every candidate before it
      // succeeded
      ensures !ok ==>
                && Aborted(start)
                && exists i :: 0 <= i < |rars| && extracted == old(extracted) + rars[..i]
                               && calls[|extracted|].path == rars[i]
      ensures ExtractFlagged()
    {
      var i := 0;
      while i < |rars|
        invariant 0 <= i <= |rars|
        invariant Clean(start) && ExtractFlagged()
        invariant extracted == old(extracted) + rars[..i]
        invariant old(calls) <= calls
        invariant forall p :: p in rars ==> p in tree.paths
      {
        var file := rars[i];
        assert file !in extracted by {
          assert forall k :: i <= k < |rars| ==> rars[k] !in rars[..i];
        }
        ghost var log := calls;
        assert |log| == |extracted|;
        ok := ExtractOne(file, start);
        assert log <= calls;
        if !ok {
          assert calls[|log|].path == file;
          return;
        }
        assert rars[..i + 1] == rars[..i] + [file];
        i := i + 1;
      }
      assert rars[..i] == rars;
      ok := true;
    }

    /** One archive part: build the command line, run the tool against the
        current tree, and record the outcome. */
    method ExtractOne(file: Path, ghost start: set<Path>) returns (ok: bool)
      requires Clean(start) && ExtractFlagged()
      requires file in tree.paths && archivePart(file) && file !in extracted
      modifies this`status, this`extract, this`extracted, this`calls, tree
      // the call is logged, the files it wrote join the tree, and it succeeded
      // exactly when the tool returned 0 or 10
      ensures var r := tool(Command(unrarCmd, file, workingDir), old(tree.paths));
              && calls == old(calls) + [Call(file, old(tree.paths), r)]
              && tree.paths == old(tree.paths) + CreatedBy(r)
              && (ok <==> Succeeded(r))
      ensures ok ==> Clean(start) && extracted == old(extracted) + [file]
      ensures !ok ==> Aborted(start) && extracted == old(extracted) && status == 1
      ensures ExtractFlagged()
    {
      var cmd := Command(unrarCmd, file, workingDir);
      var result := tool(cmd, tree.paths);
      ghost var call := Call(file, tree.paths, result);
      TraceExtend(calls, call, start, unrarCmd, workingDir, tool, archivePart);
      ghost var log := calls;
      calls := calls + [call];
      assert calls[..|extracted|] == log;
      match result {
        case LaunchFailed =>
          status := 1;
          ok := false;
        case Exited(code, created) =>
          tree.paths := tree.paths + created;
          if code == 0 || code == 10 {
            SuccessLogExtend(log, extracted, call);
            extracted := extracted + [file];
            extract := 1;
            ok := true;
          } else {
            status := 1;
            ok := false;
          }
      }
    }

    /** The deletion loop: when some extraction succeeded and deletion is
        enabled, remove every extracted path in order; a failed removal sets
        status to 1 and the loop goes on. */
    method DeleteLeftovers(deleteLeftover: string, removeFails: Path -> bool)
      modifies this`status, tree
      ensures var outcome := RemoveEach(old(tree.paths), extracted, removeFails);
              if extract == 1 && deleteLeftover == "yes" then
                tree.paths == outcome.0 && status == (if outcome.1 then 1 else old(status))
              else
                tree.paths == old(tree.paths) && status == old(status)
    {
      if extract == 1 && deleteLeftover == "yes" {
        var i := 0;
        ghost var failed := false;
        while i < |extracted|
          invariant 0 <= i <= |extracted|
          invariant var rest := RemoveEach(tree.paths, extracted[i..], removeFails);
                    var all := RemoveEach(old(tree.paths), extracted, removeFails);
                    rest.0 == all.0 && (failed || rest.1) == all.1
          invariant status == if failed then 1 else old(status)
        {
          var file := extracted[i];
          assert extracted[i..][1..] == extracted[i + 1..];
          if file in tree.paths && !removeFails(file) {
            tree.paths := tree.paths - {file};
          } else {
            status := 1;
            failed := true;
          }
          i := i + 1;
        }
      }
    }
  }

  /** Removing `victims` from `paths` one by one, as `os.remove` does: a path
      that is absent or whose removal fails stays, and is reported.  Returns
      the remaining paths and whether any removal failed. */
  function RemoveEach(paths: set<Path>, victims: seq<Path>, fails: Path -> bool): (r: (set<Path>, bool))
    ensures r.0 <= paths
    ensures forall p :: p in paths && p !in r.0 ==> p in victims
    decreases |victims|
  {
    if victims == [] then (paths, false)
    else
      var p := victims[0];
      var removed := p in paths && !fails(p);
      var rest := RemoveEach(if removed then paths - {p} else paths, victims[1..], fails);
      (rest.0, rest.1 || !removed)
  }

  /** With distinct victims, exactly the victims that exist and can be
      removed disappear, and a failure is reported exactly when some victim
      is absent or cannot be removed. */
  lemma {:induction false} RemoveEachExact(paths: set<Path>, victims: seq<Path>, fails: Path -> bool)
    requires Distinct(victims)
    ensures var r := RemoveEach(paths, victims, fails);
            && (forall p :: p in r.0 <==> p in paths && !(p in victims && !fails(p)))
            && (r.1 <==> exists p :: p in victims && (p !in paths || fails(p)))
    decreases |victims|
  {
    if victims != [] {
      var p := victims[0];
      var removed := p in paths && !fails(p);
      var next := if removed then paths - {p} else paths;
      assert Distinct(victims[1..]) by {
        forall i, j | 0 <= i < j < |victims[1..]| ensures victims[1..][i] != victims[1..][j] {
          assert victims[1..][i] == victims[i + 1] && victims[1..][j] == victims[j + 1];
        }
      }
      RemoveEachExact(next, victims[1..], fails);
      assert p !in victims[1..] by {
        forall k | 0 <= k < |victims[1..]| ensures victims[1..][k] != p {
          assert victims[1..][k] == victims[k + 1];
        }
      }
      forall q | q in victims ensures q == p || q in victims[1..] {
        var k :| 0 <= k < |victims| && victims[k] == q;
        if k > 0 {
          assert victims[1..][k - 1] == q;
        }
      }
    }
  }

  /** The exit code after the run: success when status stayed 0, otherwise
      "no further action". */
  function ExitCode(status: int): (code: int)
    ensures code == POSTPROCESS_SUCCESS <==> status == 0
    ensures code == POSTPROCESS_SUCCESS || code == POSTPROCESS_NONE
  {
    if status == 0 then POSTPROCESS_SUCCESS else POSTPROCESS_NONE
  }
}
