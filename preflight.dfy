/** The checks the script makes on its environment before it looks at any
    file: host version, script options, the host's Unpack setting, the
    download's total status and the destination directory. */
module Preflight {
  import opened PathNames
  import opened Wrappers

  /** Exit codes the host understands. */
  const POSTPROCESS_SUCCESS := 93
  const POSTPROCESS_ERROR := 94
  const POSTPROCESS_NONE := 95

  /** The script options that must be present, checked in this order. */
  const REQUIRED_OPTIONS: seq<string> :=
    ["NZBOP_UNRARCMD", "NZBPO_UNRARCMD", "NZBPO_WAITTIME", "NZBPO_DELETELEFTOVER"]

  /** What the extraction run is handed once every check has passed. */
  datatype Config = Config(
    unrarCmd: string,        // command prefix; the archive and destination are appended
    waitTime: string,        // seconds to sleep before scanning, as the option's text
    deleteLeftover: string,  // "yes" enables deletion of extracted archive parts
    workingDir: Path,        // the download directory that is scanned
    sleepFirst: bool)        // whether the host's UnpackCleanupDisk asks for the sleep

  /** Outcome of the checks: stop with an exit code, stop on a variable that
      the script reads without testing for it (Python raises KeyError), or go on. */
  datatype Verdict = Halt(code: int) | KeyMissing(key: string) | Proceed(config: Config)

  /** The first of `names` that `env` lacks, as the loop over the required
      options finds it. */
  function FirstMissing(names: seq<string>, env: map<string, string>): (r: Option<string>)
    ensures r == None <==> forall n :: n in names ==> n in env
    ensures r.Some? ==> exists i :: 0 <= i < |names| && names[i] == r.value
                          && r.value !in env && forall j :: 0 <= j < i ==> names[j] in env
  {
    if names == [] then None
    else if names[0] !in env then Some(names[0])
    else
      var rest := FirstMissing(names[1..], env);
      assert rest.Some? ==> exists i :: 0 <= i < |names| && names[i] == rest.value
                              && forall j :: 0 <= j < i ==> names[j] in env by {
        if rest.Some? {
          var i :| 0 <= i < |names[1..]| && names[1..][i] == rest.value
                   && forall j :: 0 <= j < i ==> names[1..][j] in env;
          assert names[i + 1] == rest.value;
          assert forall j :: 0 <= j < i + 1 ==> names[j] in env by {
            forall j | 0 <= j < i + 1 ensures names[j] in env {
              if j > 0 {
                assert names[j] == names[1..][j - 1];
              }
            }
          }
        }
      }
      rest
  }

  /** The host is recent enough and every required option is configured. */
  predicate OptionsPresent(env: map<string, string>)
  {
    "NZBOP_EXTENSIONS" in env && forall n :: n in REQUIRED_OPTIONS ==> n in env
  }

  /** The command prefix: the script's own UnrarCmd, or the host's when the
      script's is blank. */
  function UnrarCommand(env: map<string, string>): (cmd: string)
    requires "NZBPO_UNRARCMD" in env && "NZBOP_UNRARCMD" in env
    ensures env["NZBPO_UNRARCMD"] != "" ==> cmd == env["NZBPO_UNRARCMD"]
    ensures env["NZBPO_UNRARCMD"] == "" ==> cmd == env["NZBOP_UNRARCMD"]
  {
    if env["NZBPO_UNRARCMD"] == "" then env["NZBOP_UNRARCMD"] else env["NZBPO_UNRARCMD"]
  }

  /** The preflight decision; `dirs` is the set of paths that are existing
      directories. */
  function Check(env: map<string, string>, dirs: set<Path>): (v: Verdict)
    ensures v.Halt? ==> v.code == POSTPROCESS_ERROR || v.code == POSTPROCESS_NONE
    // 94: old host, a missing option, or Unpack switched off
    ensures v == Halt(POSTPROCESS_ERROR) <==>
      !OptionsPresent(env) || ("NZBOP_UNPACK" in env && env["NZBOP_UNPACK"] != "yes")
    // 95: the download failed or its directory is gone
    ensures v == Halt(POSTPROCESS_NONE) <==>
      && OptionsPresent(env) && "NZBOP_UNPACK" in env && env["NZBOP_UNPACK"] == "yes"
      && "NZBPP_TOTALSTATUS" in env
      && (env["NZBPP_TOTALSTATUS"] != "SUCCESS"
          || ("NZBPP_DIRECTORY" in env && env["NZBPP_DIRECTORY"] !in dirs))
    ensures v.Proceed? <==>
      && OptionsPresent(env) && "NZBOP_UNPACK" in env && env["NZBOP_UNPACK"] == "yes"
      && "NZBPP_TOTALSTATUS" in env && env["NZBPP_TOTALSTATUS"] == "SUCCESS"
      && "NZBPP_DIRECTORY" in env && env["NZBPP_DIRECTORY"] in dirs
      && "NZBOP_UNPACKCLEANUPDISK" in env
    ensures v.Proceed? ==>
      && v.config.unrarCmd == UnrarCommand(env)
      && v.config.workingDir == env["NZBPP_DIRECTORY"] && v.config.workingDir in dirs
      && v.config.deleteLeftover == env["NZBPO_DELETELEFTOVER"]
      && v.config.waitTime == env["NZBPO_WAITTIME"]
      && v.config.sleepFirst == (env["NZBOP_UNPACKCLEANUPDISK"] == "yes")
    ensures v.KeyMissing? ==> v.key !in env
  {
    if "NZBOP_EXTENSIONS" !in env then Halt(POSTPROCESS_ERROR)
    else if FirstMissing(REQUIRED_OPTIONS, env).Some? then Halt(POSTPROCESS_ERROR)
    else if "NZBOP_UNPACK" !in env then KeyMissing("NZBOP_UNPACK")
    else if env["NZBOP_UNPACK"] != "yes" then Halt(POSTPROCESS_ERROR)
    else
      var unrarCmd := UnrarCommand(env);
      if "NZBPP_TOTALSTATUS" !in env then KeyMissing("NZBPP_TOTALSTATUS")
      else if env["NZBPP_TOTALSTATUS"] != "SUCCESS" then Halt(POSTPROCESS_NONE)
      else if "NZBPP_DIRECTORY" !in env then KeyMissing("NZBPP_DIRECTORY")
      else if env["NZBPP_DIRECTORY"] !in dirs then Halt(POSTPROCESS_NONE)
      else if "NZBOP_UNPACKCLEANUPDISK" !in env then KeyMissing("NZBOP_UNPACKCLEANUPDISK")
      else Proceed(Config(unrarCmd, env["NZBPO_WAITTIME"], env["NZBPO_DELETELEFTOVER"],
                          env["NZBPP_DIRECTORY"], env["NZBOP_UNPACKCLEANUPDISK"] == "yes"))
  }
}
