/** The end-to-end case of `test_unrar` in tests.py: three archives in the
    download directory "/t/tmp/", an unrar command that extracts each into
    one text file, and the test's default settings.  Of the variables the
    test sets, the environment lists those the script reads, and UnrarPath. */
module Scenario {
  import opened PathNames
  import opened RarPattern
  import opened Preflight
  import opened Extraction
  import opened Script

  const TMP: Path := "/t/tmp/"
  const RAR1: Path := "/t/tmp/test1.rar"
  const RAR2: Path := "/t/tmp/test2.rar"
  const RAR3: Path := "/t/tmp/test3.rar"
  const TXT1: Path := "/t/tmp/test1.txt"
  const TXT2: Path := "/t/tmp/test2.txt"
  const TXT3: Path := "/t/tmp/test3.txt"

  /** The test never makes a removal fail. */
  predicate NoRemovalFails(p: Path)
  {
    false
  }

  /** The test's environment, as `set_default_env` writes it. */
  const TEST_ENV: map<string, string> := map[
    "NZBPP_DIRECTORY" := TMP,
    "NZBOP_EXTENSIONS" := "",
    "NZBOP_UNPACK" := "yes",
    "NZBPP_TOTALSTATUS" := "SUCCESS",
    "NZBOP_UNRARCMD" := "unrar",
    "NZBPO_UNRARPATH" := "",
    "NZBPO_WAITTIME" := "0",
    "NZBPO_DELETELEFTOVER" := "no",
    "NZBOP_UNPACKCLEANUPDISK" := "no"]

  /** The files unrar writes for one archive. */
  function Outputs(rar: Path): (out: set<Path>)
    ensures out <= {TXT1, TXT2, TXT3}
  {
    if rar == RAR1 then {TXT1} else if rar == RAR2 then {TXT2} else if rar == RAR3 then {TXT3} else {}
  }

  /** Each archive of the test has its own text file, and no quote in its
      name. */
  lemma OutputsOfArchives()
    ensures Outputs(RAR1) == {TXT1} && Outputs(RAR2) == {TXT2} && Outputs(RAR3) == {TXT3}
    ensures '"' !in RAR1 && '"' !in RAR2 && '"' !in RAR3
  {
    assert RAR2[11] != RAR1[11];
    assert RAR3[11] != RAR1[11] && RAR3[11] != RAR2[11];
  }

  /** An unrar that always succeeds and writes the text file of the archive
      named on its command line. */
  function Unrar(cmd: string, files: set<Path>): (r: ToolResult)
    ensures r.Exited? && r.code == 0 && r.created <= {TXT1, TXT2, TXT3}
  {
    match SplitCommand(cmd)
    case Some(parts) => Exited(0, Outputs(parts.1))
    case None => Exited(0, {})
  }

  /** The setup as written leaves out the script option UnrarCmd, which the
      script requires: run in an environment that does not supply it, the
      script stops with the error code before looking at any file. */
  lemma TestEnvironmentLacksUnrarCmd()
    ensures "NZBPO_UNRARCMD" !in TEST_ENV
    ensures Check(TEST_ENV, {TMP}) == Halt(POSTPROCESS_ERROR)
  {
    assert !OptionsPresent(TEST_ENV) by {
      assert "NZBPO_UNRARCMD" in REQUIRED_OPTIONS;
    }
  }

  /** With UnrarCmd present but blank, the checks pass and the host's unrar
      command is used. */
  lemma TestEnvironmentWithBlankUnrarCmd()
    ensures Check(TEST_ENV["NZBPO_UNRARCMD" := ""], {TMP})
            == Proceed(Config("unrar", "0", "no", TMP, false))
  {
    var env := TEST_ENV["NZBPO_UNRARCMD" := ""];
    assert OptionsPresent(env);
  }

  /** The test: the script exits with success and the three text files
      exist. */
  method TestUnrar() returns (ending: Ending, tree: FileTree)
    ensures ending == Exit(POSTPROCESS_SUCCESS)
    ensures TXT1 in tree.paths && TXT2 in tree.paths && TXT3 in tree.paths
  {
    var env := TEST_ENV["NZBPO_UNRARCMD" := ""];
    TestEnvironmentWithBlankUnrarCmd();
    tree := new FileTree({RAR1, RAR2, RAR3});
    ghost var start := tree.paths;
    var run;
    ghost var scans;
    ending, run, scans := RunScript(env, {TMP}, tree, Unrar, NoRemovalFails, {RAR1, RAR2, RAR3, TXT1, TXT2, TXT3});
    TestOutcome(start, scans, run.calls, run.extracted, run.extract, tree.paths, ending.code);
  }

  /** What any run of the test leaves, from the facts the script promises. */
  lemma TestOutcome(start: set<Path>, scans: seq<seq<Path>>, calls: seq<Call>, extracted: seq<Path>,
                    extract: int, final: set<Path>, code: int)
    requires start == {RAR1, RAR2, RAR3}
    requires Trace(calls, start, "unrar", TMP, Unrar, IsRar)
    requires Outcome(start, scans, calls, extracted, extract, final, code, false, NoRemovalFails, IsRar)
    ensures code == POSTPROCESS_SUCCESS
    ensures TXT1 in final && TXT2 in final && TXT3 in final
  {
    NeverFailingTool(start, scans, calls, extracted, extract, final, code, "unrar", TMP, Unrar, NoRemovalFails, IsRar);
    ArchivesAreParts();
    OutputsOfArchives();
    UnrarWrites(RAR1, TXT1);
    UnrarWrites(RAR2, TXT2);
    UnrarWrites(RAR3, TXT3);
    ExtractedWrote(calls, extracted, start, "unrar", TMP, Unrar, IsRar, RAR1, TXT1);
    ExtractedWrote(calls, extracted, start, "unrar", TMP, Unrar, IsRar, RAR2, TXT2);
    ExtractedWrote(calls, extracted, start, "unrar", TMP, Unrar, IsRar, RAR3, TXT3);
  }

  /** The three archives of the test are archive parts. */
  lemma ArchivesAreParts()
    ensures IsRar(RAR1) && IsRar(RAR2) && IsRar(RAR3)
  {
    RarSuffixIsRar(RAR1);
    RarSuffixIsRar(RAR2);
    RarSuffixIsRar(RAR3);
  }

  /** The command line built for one archive of the test makes unrar write
      that archive's text file. */
  lemma UnrarWrites(rar: Path, txt: Path)
    requires '"' !in rar && Outputs(rar) == {txt}
    ensures forall files :: txt in CreatedBy(Unrar(Command("unrar", rar, TMP), files))
  {
    SplitCommandRoundTrip("unrar", rar, TMP);
  }

  /** A call that was logged for an extracted archive part, whose command
      always writes `txt`, left `txt` among the files the log wrote. */
  lemma ExtractedWrote(calls: seq<Call>, extracted: seq<Path>, start: set<Path>, unrarCmd: string,
                       workingDir: Path, tool: (string, set<Path>) -> ToolResult,
                       archivePart: Path -> bool, rar: Path, txt: Path)
    requires Trace(calls, start, unrarCmd, workingDir, tool, archivePart)
    requires |extracted| <= |calls|
    requires forall k :: 0 <= k < |extracted| ==> calls[k].path == extracted[k]
    requires rar in extracted
    requires forall files :: txt in CreatedBy(tool(Command(unrarCmd, rar, workingDir), files))
    ensures txt in Created(calls)
  {
    var k :| 0 <= k < |extracted| && extracted[k] == rar;
    assert Faithful(calls[k], unrarCmd, workingDir, tool, archivePart);
    CreatedByEach(calls, k);
  }
}
