/** The script from start to end: the preflight checks, the extraction run,
    the optional deletion of the extracted archive parts, and the exit code. */
module Script {
  import opened PathNames
  import opened RarPattern
  import opened Preflight
  import opened Extraction

  /** How the script ends: with an exit code for the host, or with an
      uncaught KeyError for an environment variable it reads unchecked. */
  datatype Ending = Exit(code: int) | Crashed(key: string)

  /** The files left once deletion has run (when `deleting`): the extracted
      archive parts whose removal succeeded are gone, nothing else is. */
  ghost function Leftover(grown: set<Path>, extracted: seq<Path>, deleting: bool,
                          removeFails: Path -> bool): (left: set<Path>)
  {
    if deleting then set p | p in grown && !(p in extracted && !removeFails(p)) else grown
  }

  /** What a run that passed the checks leaves behind.  It started from the
      tree `start`, scanned `scans`, made the logged `calls`, extracted
      `extracted`, set the flag `extract`, left the tree `final` and exited
      with `code`; `deleting` says whether DeleteLeftover was "yes". */
  ghost predicate Outcome(start: set<Path>, scans: seq<seq<Path>>, calls: seq<Call>, extracted: seq<Path>,
                          extract: int, final: set<Path>, code: int, deleting: bool,
                          removeFails: Path -> bool, archivePart: Path -> bool)
  {
    // the run stopped at the first failing call, if any
    && |extracted| <= |calls| <= |extracted| + 1
    && (forall k :: 0 <= k < |extracted| ==> calls[k].path == extracted[k] && Succeeded(calls[k].result))
    && (|calls| > |extracted| ==>
          !Succeeded(calls[|extracted|].result) && calls[|extracted|].path !in extracted)
    && Distinct(extracted)
    // the calls come in rounds, one per scan, from the tree at the start
    && Rounds(calls, scans, start, [], archivePart, |calls| > |extracted|)
    // a run without failures ends at a fixed point
    && (|calls| == |extracted| ==>
          extract == 1 && forall p :: p in start + Created(calls) && archivePart(p) ==> p in extracted)
    && (|calls| > |extracted| ==> (extract == 1 <==> extracted != []))
    // deletion, when it runs, removes extracted archive parts and nothing else
    && final == Leftover(start + Created(calls), extracted, deleting && extract == 1, removeFails)
    // success exactly when no call failed and no deletion failed
    && (code == POSTPROCESS_SUCCESS || code == POSTPROCESS_NONE)
    && (code == POSTPROCESS_SUCCESS <==>
          |calls| == |extracted| && (deleting ==> forall p :: p in extracted ==> !removeFails(p)))
  }

  /** After a success with deletion enabled, no archive part is left. */
  lemma SuccessLeavesNoArchive(start: set<Path>, scans: seq<seq<Path>>, calls: seq<Call>, extracted: seq<Path>,
                               extract: int, final: set<Path>, removeFails: Path -> bool,
                               archivePart: Path -> bool)
    requires Outcome(start, scans, calls, extracted, extract, final, POSTPROCESS_SUCCESS, true, removeFails, archivePart)
    ensures forall p :: p in final ==> !archivePart(p)
  {
  }

  /** After a success, every file the run left is one that was there at the
      start or that the tool wrote, and every archive part among those was
      extracted. */
  lemma SuccessIsFixedPoint(start: set<Path>, scans: seq<seq<Path>>, calls: seq<Call>, extracted: seq<Path>,
                            extract: int, final: set<Path>, deleting: bool, removeFails: Path -> bool,
                            archivePart: Path -> bool)
    requires Outcome(start, scans, calls, extracted, extract, final, POSTPROCESS_SUCCESS, deleting, removeFails, archivePart)
    ensures final <= start + Created(calls)
    ensures forall p :: p in final && archivePart(p) ==> p in extracted
  {
  }

  /** No archive part goes to the tool twice in one run. */
  lemma EachPathOnce(start: set<Path>, scans: seq<seq<Path>>, calls: seq<Call>, extracted: seq<Path>,
                     extract: int, final: set<Path>, code: int, deleting: bool, removeFails: Path -> bool,
                     archivePart: Path -> bool)
    requires Outcome(start, scans, calls, extracted, extract, final, code, deleting, removeFails, archivePart)
    ensures forall i, j :: 0 <= i < j < |calls| ==> calls[i].path != calls[j].path
  {
    forall i, j | 0 <= i < j < |calls| ensures calls[i].path != calls[j].path {
      if j == |extracted| {
        assert calls[i].path == extracted[i];
      }
    }
  }

  /** A file that was not in the tree at the start, such as an archive
      written by an extraction, goes to the tool only after every archive
      part of the starting tree has: it is found by a later scan. */
  lemma NestedArchivesLater(start: set<Path>, scans: seq<seq<Path>>, calls: seq<Call>, extracted: seq<Path>,
                            extract: int, final: set<Path>, code: int, deleting: bool,
                            removeFails: Path -> bool, archivePart: Path -> bool, k: nat)
    requires Outcome(start, scans, calls, extracted, extract, final, code, deleting, removeFails, archivePart)
    requires k < |calls| && calls[k].path !in start
    ensures forall p :: p in start && archivePart(p) ==> exists j :: 0 <= j < k && calls[j].path == p
  {
    FirstRoundFirst(calls, scans, start, [], archivePart, |calls| > |extracted|, k);
  }

  /** With an unrar command that never fails and deletion off, the run ends in
      success with every file still in place, and every archive part that was
      there at the start has been extracted. */
  lemma {:induction false} NeverFailingTool(start: set<Path>, scans: seq<seq<Path>>, calls: seq<Call>,
                                            extracted: seq<Path>, extract: int, final: set<Path>, code: int,
                                            unrarCmd: string, workingDir: Path,
                                            tool: (string, set<Path>) -> ToolResult,
                                            removeFails: Path -> bool, archivePart: Path -> bool)
    requires Trace(calls, start, unrarCmd, workingDir, tool, archivePart)
    requires Outcome(start, scans, calls, extracted, extract, final, code, false, removeFails, archivePart)
    requires forall cmd, files :: Succeeded(tool(cmd, files))
    ensures code == POSTPROCESS_SUCCESS
    ensures final == start + Created(calls)
    ensures forall p :: p in start && archivePart(p) ==> p in extracted
  {
    if |calls| > |extracted| {
      assert false;
    }
  }

  /** One invocation of the script.  `env` is the environment, `dirs` the
      paths that are existing directories, `tree` the download directory's
      files, `tool` the unrar command and `removeFails` the paths whose
      `os.remove` raises.  `universe` bounds every file the tool can write. */
  method RunScript(env: map<string, string>, dirs: set<Path>, tree: FileTree,
                   tool: (string, set<Path>) -> ToolResult, removeFails: Path -> bool,
                   ghost universe: set<Path>)
    returns (ending: Ending, run: Run?, ghost scans: seq<seq<Path>>)
    requires StaysWithin(tool, universe) && tree.paths <= universe
    modifies tree
    // stopping early touches no file
    ensures Check(env, dirs).Halt? ==>
              ending == Exit(Check(env, dirs).code) && run == null && tree.paths == old(tree.paths)
    ensures Check(env, dirs).KeyMissing? ==>
              ending == Crashed(Check(env, dirs).key) && run == null && tree.paths == old(tree.paths)
    // otherwise the configured command runs on archive parts as `is_rar` sees them
    ensures Check(env, dirs).Proceed? ==>
              var cfg := Check(env, dirs).config;
              && run != null && fresh(run) && run.tree == tree && run.archivePart == IsRar
              && ending.Exit?
              && Trace(run.calls, old(tree.paths), cfg.unrarCmd, cfg.workingDir, tool, IsRar)
              && Outcome(old(tree.paths), scans, run.calls, run.extracted, run.extract, tree.paths,
                         ending.code, cfg.deleteLeftover == "yes", removeFails, IsRar)
  {
    var verdict := Check(env, dirs);
    match verdict {
      case Halt(code) =>
        return Exit(code), null, [];
      case KeyMissing(key) =>
        return Crashed(key), null, [];
      case Proceed(cfg) =>
        var code;
        code, run, scans := ExtractAndTidy(cfg, tree, tool, IsRar, removeFails, universe);
        ending := Exit(code);
    }
  }

  /** The part of the script after the checks, for any archive-part test. */
  method ExtractAndTidy(cfg: Config, tree: FileTree, tool: (string, set<Path>) -> ToolResult,
                        archivePart: Path -> bool, removeFails: Path -> bool, ghost universe: set<Path>)
    returns (code: int, run: Run, ghost scans: seq<seq<Path>>)
    requires StaysWithin(tool, universe) && tree.paths <= universe
    modifies tree
    ensures fresh(run) && run.tree == tree && run.archivePart == archivePart
    ensures Trace(run.calls, old(tree.paths), cfg.unrarCmd, cfg.workingDir, tool, archivePart)
    ensures Outcome(old(tree.paths), scans, run.calls, run.extracted, run.extract, tree.paths, code,
                    cfg.deleteLeftover == "yes", removeFails, archivePart)
  {
    ghost var start := tree.paths;
    run := new Run(cfg.unrarCmd, cfg.workingDir, tool, archivePart, tree, universe);
    scans := run.UnrarRecursively(start);
    assert run.calls[0..] == run.calls;
    run.Settled(start);
    ghost var grown, ranClean := tree.paths, run.status;
    run.DeleteLeftovers(cfg.deleteLeftover, removeFails);
    code := ExitCode(run.status);
    TidyOutcome(start, scans, run.calls, run.extracted, run.extract, grown, tree.paths, ranClean, run.status,
                code, cfg.deleteLeftover == "yes", removeFails, archivePart);
  }

  /** The facts the extraction run and the deletion loop leave, put together. */
  lemma TidyOutcome(start: set<Path>, scans: seq<seq<Path>>, calls: seq<Call>, extracted: seq<Path>,
                    extract: int, grown: set<Path>, final: set<Path>, ran: int, status: int, code: int,
                    deleting: bool, removeFails: Path -> bool, archivePart: Path -> bool)
    requires grown == start + Created(calls)
    requires Distinct(extracted) && Present(extracted, grown)
    requires (ran == 0 || ran == 1) && |calls| == |extracted| + ran
    requires forall k :: 0 <= k < |extracted| ==> calls[k].path == extracted[k] && Succeeded(calls[k].result)
    requires ran == 1 ==> !Succeeded(calls[|extracted|].result) && calls[|extracted|].path !in extracted
    requires Rounds(calls, scans, start, [], archivePart, ran != 0)
    requires ran == 0 ==> extract == 1 && forall p :: p in grown && archivePart(p) ==> p in extracted
    requires ran != 0 ==> (extract == 1 <==> extracted != [])
    requires var outcome := RemoveEach(grown, extracted, removeFails);
             if extract == 1 && deleting then final == outcome.0 && status == (if outcome.1 then 1 else ran)
             else final == grown && status == ran
    requires code == ExitCode(status)
    ensures Outcome(start, scans, calls, extracted, extract, final, code, deleting, removeFails, archivePart)
  {
    RemoveEachExact(grown, extracted, removeFails);
    if extract == 1 && deleting {
      var outcome := RemoveEach(grown, extracted, removeFails);
      assert final == Leftover(grown, extracted, true, removeFails);
      assert outcome.1 <==> exists p :: p in extracted && removeFails(p);
    }
  }
}
