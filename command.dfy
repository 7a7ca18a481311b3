/** The executable filter and the exit-code normalisation of one child run.
    The file-system query and the child process itself are inputs: a stat
    result, and what the launch of the child reported together with the text
    it wrote to its two streams. */
module Command {

  /** The directory bit of a Go file mode (fs.ModeDir, the top bit of a uint32). */
  const ModeDir: bv32 := 0x8000_0000
  /** Owner, group and other execute permission bits: 0o100, 0o010 and 0o001. */
  const OwnerExec: bv32 := 0x40
  const GroupExec: bv32 := 0x08
  const OtherExec: bv32 := 0x01
  /** The mask 0o111 the filter tests against. */
  const AnyExec: bv32 := 0x49

  /** What os.Stat reported for a path (after following symbolic links). */
  datatype StatResult = StatFailed | Stat(mode: bv32)

  /** A path is executable when it can be stat'd, is not a directory and has
      at least one of the three execute bits; a failed stat is a plain "no". */
  predicate IsExecutable(s: StatResult): (r: bool)
    ensures r ==> s.Stat? && s.mode & ModeDir == 0
    ensures s.Stat? && s.mode & ModeDir == 0 && s.mode & OwnerExec != 0 ==> r
  {
    match s
    case StatFailed => false
    case Stat(m) => m & ModeDir == 0 && m & AnyExec != 0
  }

  /** The filter read bit by bit: a failed stat and a directory are never
      executable, and any one of the owner, group or other execute bits is
      enough. */
  lemma ExecutableIff(s: StatResult)
    ensures IsExecutable(s) <==>
              s.Stat? && s.mode & ModeDir == 0
              && (s.mode & OwnerExec != 0 || s.mode & GroupExec != 0 || s.mode & OtherExec != 0)
  {
  }

  /** How running the child ended, as cmd.Run reported it:
      - ExitError: the child ran and exited unsuccessfully; its decoded wait status;
      - NoError: the child ran and exited successfully; its decoded wait status;
      - OtherError: any other error, typically the child could not be started. */
  datatype Launch = ExitError(waitStatus: int) | NoError(waitStatus: int) | OtherError(message: string)

  /** One run of a child: how it ended and what it wrote to stdout and stderr. */
  datatype Child = Child(launch: Launch, stdout: string, stderr: string)

  /** What the runner reports for one child. */
  datatype ExecResult = ExecResult(stdout: string, stderr: string, exitCode: int)

  /** The exit-code selection of RunCommand: the real status when the child ran,
      the sentinel 1 when it did not, and the error text standing in for an
      empty stderr in that case. */
  function RunCommand(c: Child): (r: ExecResult)
    ensures r.stdout == c.stdout
    ensures c.launch.OtherError? ==> r.exitCode == 1
    ensures !c.launch.OtherError? ==> r.exitCode == c.launch.waitStatus && r.stderr == c.stderr
    ensures c.stderr != "" ==> r.stderr == c.stderr
    ensures c.stderr == "" && c.launch.OtherError? ==> r.stderr == c.launch.message
  {
    match c.launch
    case ExitError(status) => ExecResult(c.stdout, c.stderr, status)
    case NoError(status) => ExecResult(c.stdout, c.stderr, status)
    case OtherError(message) =>
      ExecResult(c.stdout, if c.stderr == "" then message else c.stderr, 1)
  }

  /** A child counts as successful exactly when it ran and reported status 0;
      a launch failure is never a success. */
  lemma SuccessIff(c: Child)
    ensures RunCommand(c).exitCode == 0 <==> !c.launch.OtherError? && c.launch.waitStatus == 0
  {
  }

  /** A launch failure always leaves something on stderr, provided the error
      describes itself with non-empty text. */
  lemma LaunchFailureVisible(c: Child)
    requires c.launch.OtherError? && c.launch.message != ""
    ensures RunCommand(c).stderr != "" && RunCommand(c).exitCode != 0
  {
  }
}
