/** The run as a function of its inputs: the configuration, and for every
    directory argument either a failed listing or its entries, each entry
    with its stat result and the run its child would make. The definitions
    follow the two loops of the program one iteration at a time, so that the
    loops in Runner can be checked against them. */
module Semantics {
  import opened Command
  import opened Output

  /** The behavioural flags, fixed for the whole run. */
  datatype Config = Config(verbose: bool, exitOnError: bool, markdown: bool, showTime: bool)

  /** Directory enumeration never yields an empty name. */
  type EntryName = s: string | |s| > 0 witness "x"

  datatype Entry = Entry(name: EntryName, stat: StatResult, child: Child)

  /** What reading a directory gave: an error, or the entries in enumeration order. */
  datatype Listing = Unreadable(error: string) | Entries(files: seq<Entry>)

  datatype Directory = Directory(path: string, listing: Listing)

  /** One execution: the directory argument and the entry that was run. */
  datatype Job = Job(dir: string, entry: Entry)

  /** Whether the run goes on, or the process exits with a status. */
  datatype Status = Continue | Exit(code: int)

  /** What (part of) a run did: the executions in order, the output, how it stands. */
  datatype Run = Run(executed: seq<Job>, events: seq<Event>, status: Status)

  /** A dotfile: the name begins with a dot. */
  predicate IsDotfile(name: EntryName): (r: bool)
    ensures r <==> "." <= name
  {
    name[0] == '.'
  }

  /** The skip rules, in the order the loop applies them. */
  datatype Decision = SkipDotfile | SkipNonExecutable | Execute

  function Decide(e: Entry): (d: Decision)
    ensures d == Execute <==> !IsDotfile(e.name) && IsExecutable(e.stat)
    ensures IsDotfile(e.name) ==> d == SkipDotfile
    ensures !IsDotfile(e.name) && !IsExecutable(e.stat) ==> d == SkipNonExecutable
  {
    if IsDotfile(e.name) then SkipDotfile
    else if !IsExecutable(e.stat) then SkipNonExecutable
    else Execute
  }

  /** The exit code the runner sees for an entry's child. */
  predicate Fails(e: Entry)
  {
    RunCommand(e.child).exitCode != 0
  }

  /** The trace lines around one execution and the relayed output, stdout first. */
  function ExecutionEvents(cfg: Config, p: Path, res: ExecResult): (r: seq<Event>)
    ensures !cfg.verbose ==> r == Relay(res.stdout, cfg.markdown) + Relay(res.stderr, cfg.markdown)
    ensures forall i :: 0 <= i < |r| ==> r[i].Print? || r[i] in [Launching(p), Finished(p, cfg.showTime), NonZeroExit(p)]
  {
    (if cfg.verbose then [Launching(p)] else [])
    + Relay(res.stdout, cfg.markdown) + Relay(res.stderr, cfg.markdown)
    + (if cfg.verbose then [Finished(p, cfg.showTime)] else [])
    + (if res.exitCode != 0 && cfg.verbose then [NonZeroExit(p)] else [])
  }

  /** In verbose mode an execution is framed by trace lines: the launch line
      first, then the relayed stdout and stderr, then the completion line,
      and last the non-zero warning when the exit code is not 0. */
  lemma VerboseTrace(cfg: Config, p: Path, res: ExecResult)
    requires cfg.verbose
    ensures ExecutionEvents(cfg, p, res)
            == [Launching(p)] + Relay(res.stdout, cfg.markdown) + Relay(res.stderr, cfg.markdown)
               + [Finished(p, cfg.showTime)] + (if res.exitCode != 0 then [NonZeroExit(p)] else [])
    ensures var r := ExecutionEvents(cfg, p, res);
            |r| >= 2 && r[0] == Launching(p)
            && r[|r| - 1] == (if res.exitCode != 0 then NonZeroExit(p) else Finished(p, cfg.showTime))
            && (res.exitCode != 0 ==> r[|r| - 2] == Finished(p, cfg.showTime))
  {
  }

  /** Whatever the flags, the captured output of one execution is its relayed
      stdout followed by its relayed stderr: the trace lines around it add
      no captured text and reorder nothing. */
  lemma CapturedExecution(cfg: Config, p: Path, res: ExecResult)
    ensures Captured(ExecutionEvents(cfg, p, res))
            == Relay(res.stdout, cfg.markdown) + Relay(res.stderr, cfg.markdown)
  {
    var pre := if cfg.verbose then [Launching(p)] else [];
    var out, err := Relay(res.stdout, cfg.markdown), Relay(res.stderr, cfg.markdown);
    var fin := if cfg.verbose then [Finished(p, cfg.showTime)] else [];
    var nz := if res.exitCode != 0 && cfg.verbose then [NonZeroExit(p)] else [];
    assert ExecutionEvents(cfg, p, res) == pre + out + err + fin + nz;
    TraceUncaptured(pre);
    TraceUncaptured(fin);
    TraceUncaptured(nz);
    RelayCaptured(res.stdout, cfg.markdown);
    RelayCaptured(res.stderr, cfg.markdown);
    CapturedBetween(pre, out, err, fin, nz);
  }

  /** Uncaptured events around two captured blocks leave just the two blocks. */
  lemma CapturedBetween(pre: seq<Event>, out: seq<Event>, err: seq<Event>, fin: seq<Event>, nz: seq<Event>)
    requires Captured(pre) == [] && Captured(fin) == [] && Captured(nz) == []
    requires Captured(out) == out && Captured(err) == err
    ensures Captured(pre + out + err + fin + nz) == out + err
  {
    calc {
      Captured(pre + out + err + fin + nz);
    == { CapturedAppend(pre + out + err + fin, nz); }
      Captured(pre + out + err + fin);
    == { CapturedAppend(pre + out + err, fin); }
      Captured(pre + out + err);
    == { CapturedAppend(pre + out, err); }
      Captured(pre + out) + err;
    == { CapturedAppend(pre, out); }
      out + err;
    }
  }

  /** A trace line is not captured output. */
  lemma TraceUncaptured(evs: seq<Event>)
    requires |evs| <= 1 && forall i :: 0 <= i < |evs| ==> !evs[i].Print?
    ensures Captured(evs) == []
  {
    if evs != [] {
      assert evs[1..] == [];
    }
  }

  /** One iteration of the entry loop. */
  function Step(cfg: Config, dir: string, e: Entry): (r: Run)
    ensures r.executed == (if Decide(e) == Execute then [Job(dir, e)] else [])
    ensures r.status != Continue <==> Decide(e) == Execute && Fails(e) && cfg.exitOnError
    ensures r.status == Continue || r.status == Exit(1)
  {
    var p := Path(dir, e.name);
    match Decide(e)
    case SkipDotfile => Run([], if cfg.verbose then [SkippedDotfile(p)] else [], Continue)
    case SkipNonExecutable => Run([], if cfg.verbose then [SkippedNonExecutable(p)] else [], Continue)
    case Execute =>
      var res := RunCommand(e.child);
      Run([Job(dir, e)], ExecutionEvents(cfg, p, res),
          if res.exitCode != 0 && cfg.exitOnError then Exit(1) else Continue)
  }

  /** `a` followed by `b`: executions and output accumulate, `b` decides the status. */
  function Then(a: Run, b: Run): Run
  {
    Run(a.executed + b.executed, a.events + b.events, b.status)
  }

  /** The entry loop over `files`: stops at the first step that exits. */
  function RunEntries(cfg: Config, dir: string, files: seq<Entry>): (r: Run)
    ensures r.status == Continue || r.status == Exit(1)
    ensures forall j :: j in r.executed ==> j.dir == dir && j.entry in files && Decide(j.entry) == Execute
    decreases |files|
  {
    if files == [] then Run([], [], Continue)
    else
      var prev := RunEntries(cfg, dir, files[..|files| - 1]);
      if prev.status != Continue then prev
      else Then(prev, Step(cfg, dir, files[|files| - 1]))
  }

  /** One directory argument: an unreadable directory exits with status 1. */
  function RunDir(cfg: Config, d: Directory): (r: Run)
    ensures r.status == Continue || r.status == Exit(1)
    ensures d.listing.Unreadable? ==> r == Run([], [ReadDirError(d.path)], Exit(1))
    ensures forall j :: j in r.executed ==>
              d.listing.Entries? && j.dir == d.path && j.entry in d.listing.files && Decide(j.entry) == Execute
  {
    match d.listing
    case Unreadable(_) => Run([], [ReadDirError(d.path)], Exit(1))
    case Entries(files) => RunEntries(cfg, d.path, files)
  }

  /** The directory loop over `dirs`: stops at the first directory that exits. */
  function RunDirs(cfg: Config, dirs: seq<Directory>): (r: Run)
    ensures r.status == Continue || r.status == Exit(1)
    ensures forall j :: j in r.executed ==> !IsDotfile(j.entry.name) && IsExecutable(j.entry.stat)
    decreases |dirs|
  {
    if dirs == [] then Run([], [], Continue)
    else
      var prev := RunDirs(cfg, dirs[..|dirs| - 1]);
      if prev.status != Continue then prev
      else Then(prev, RunDir(cfg, dirs[|dirs| - 1]))
  }

  /** Once the entry loop has exited, later entries change nothing. */
  lemma {:induction false} EntriesExitIsFinal(cfg: Config, dir: string, files: seq<Entry>, k: nat)
    requires k <= |files|
    requires RunEntries(cfg, dir, files[..k]).status != Continue
    ensures RunEntries(cfg, dir, files) == RunEntries(cfg, dir, files[..k])
    decreases |files|
  {
    if k == |files| {
      assert files[..k] == files;
    } else {
      var front := files[..|files| - 1];
      assert front[..k] == files[..k];
      EntriesExitIsFinal(cfg, dir, front, k);
    }
  }

  /** Once the directory loop has exited, later directory arguments change nothing. */
  lemma {:induction false} DirsExitIsFinal(cfg: Config, dirs: seq<Directory>, k: nat)
    requires k <= |dirs|
    requires RunDirs(cfg, dirs[..k]).status != Continue
    ensures RunDirs(cfg, dirs) == RunDirs(cfg, dirs[..k])
    decreases |dirs|
  {
    if k == |dirs| {
      assert dirs[..k] == dirs;
    } else {
      var front := dirs[..|dirs| - 1];
      assert front[..k] == dirs[..k];
      DirsExitIsFinal(cfg, front, k);
    }
  }

  /** A dot-entry is decided on its name alone: its stat result and its child
      play no part, so it is never stat'd and never run. */
  lemma DotfileIgnored(cfg: Config, dir: string, e: Entry, s: StatResult, c: Child)
    requires IsDotfile(e.name)
    ensures Step(cfg, dir, e) == Step(cfg, dir, e.(stat := s, child := c))
    ensures Step(cfg, dir, e).executed == [] && Step(cfg, dir, e).status == Continue
  {
  }

  /** A skipped entry prints one trace line naming the skip rule in verbose
      mode, and nothing otherwise. */
  lemma SkipEvents(cfg: Config, dir: string, e: Entry)
    requires Decide(e) != Execute
    ensures Step(cfg, dir, e).events ==
              if !cfg.verbose then []
              else if IsDotfile(e.name) then [SkippedDotfile(Path(dir, e.name))]
              else [SkippedNonExecutable(Path(dir, e.name))]
  {
  }

  /** Without markdown, an execution puts the child's stdout and then its
      stderr on the runner's stdout verbatim; the trace lines carry no captured text. */
  lemma VerbatimEvents(cfg: Config, p: Path, res: ExecResult)
    requires !cfg.markdown
    ensures Printed(ExecutionEvents(cfg, p, res)) == res.stdout + res.stderr
  {
    var pre := if cfg.verbose then [Launching(p)] else [];
    var out, err := Relay(res.stdout, false), Relay(res.stderr, false);
    var fin := if cfg.verbose then [Finished(p, cfg.showTime)] else [];
    var nz := if res.exitCode != 0 && cfg.verbose then [NonZeroExit(p)] else [];
    assert ExecutionEvents(cfg, p, res) == pre + out + err + fin + nz;
    TraceSilent(pre);
    TraceSilent(fin);
    TraceSilent(nz);
    calc {
      Printed(pre + out + err + fin + nz);
    == { PrintedAppend(pre + out + err + fin, nz); }
      Printed(pre + out + err + fin);
    == { PrintedAppend(pre + out + err, fin); }
      Printed(pre + out + err);
    == { PrintedAppend(pre + out, err); RelayVerbatim(res.stderr); }
      Printed(pre + out) + res.stderr;
    == { PrintedAppend(pre, out); RelayVerbatim(res.stdout); }
      res.stdout + res.stderr;
    }
  }

  /** Trace events print no captured text. */
  lemma TraceSilent(evs: seq<Event>)
    requires |evs| <= 1 && forall i :: 0 <= i < |evs| ==> !evs[i].Print?
    ensures Printed(evs) == ""
  {
    if evs != [] {
      assert evs[1..] == [];
    }
  }

  /** Without markdown, an executed entry relays its child's stdout and then
      its stderr verbatim, whatever the trace flags. */
  lemma VerbatimStep(cfg: Config, dir: string, e: Entry)
    requires !cfg.markdown && Decide(e) == Execute
    ensures Printed(Step(cfg, dir, e).events) == RunCommand(e.child).stdout + RunCommand(e.child).stderr
  {
    VerbatimEvents(cfg, Path(dir, e.name), RunCommand(e.child));
  }

  /** An unreadable directory argument ends the run with status 1: nothing of it
      and nothing after it is processed. */
  lemma UnreadableStops(cfg: Config, dirs: seq<Directory>, k: nat)
    requires k < |dirs| && dirs[k].listing.Unreadable?
    ensures RunDirs(cfg, dirs) == RunDirs(cfg, dirs[..k + 1])
    ensures RunDirs(cfg, dirs).status == Exit(1)
  {
    var front := dirs[..k + 1];
    assert front[..k] == dirs[..k];
    assert front[k] == dirs[k];
    DirsExitIsFinal(cfg, dirs, k + 1);
  }
}
