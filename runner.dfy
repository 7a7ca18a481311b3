/** The two loops of the program: the entry loop of RunParts over one
    directory argument, and the directory loop of main. Each loop is checked
    against its definition in Semantics; os.Exit becomes a returned status
    that ends the loop. */
module Runner {
  import opened Lines
  import opened Command
  import opened Output
  import opened Semantics
  import opened Policy

  /** The parsed command line: the -version flag, the behavioural flags and
      the directory arguments (each already listed, or failed to list). */
  datatype Arguments = Arguments(showVersion: bool, config: Config, dirs: seq<Directory>)

  /** How the process ends: what it executed, what it printed, its exit status. */
  datatype Outcome = Outcome(executed: seq<Job>, events: seq<Event>, exitStatus: int)

  /** Relay one captured buffer, as the two output blocks of RunParts do. */
  method Show(text: string, markdown: bool) returns (out: seq<Event>)
    ensures out == Relay(text, markdown)
  {
    out := [];
    if |text| > 0 {
      if markdown {
        out := RelayMarkdown(text);
        assert out == IndentedPrints(NonBlank(Split(text)));
      } else {
        out := [Print(text)];
      }
    }
  }

  /** The part of one iteration of the entry loop of RunParts that runs the
      child: the launch trace line, the relayed stdout and stderr, the
      completion line and the non-zero warning. */
  method RunChild(cfg: Config, path: Path, child: Child) returns (res: ExecResult, events: seq<Event>)
    ensures res == RunCommand(child)
    ensures events == ExecutionEvents(cfg, path, res)
  {
    events := [];
    if cfg.verbose {
      events := events + [Launching(path)];
    }
    ghost var pre := events;
    assert pre == (if cfg.verbose then [Launching(path)] else []);
    res := RunCommand(child);
    var out := Show(res.stdout, cfg.markdown);
    events := events + out;
    var err := Show(res.stderr, cfg.markdown);
    events := events + err;
    ghost var relayed := events;
    assert relayed == pre + Relay(res.stdout, cfg.markdown) + Relay(res.stderr, cfg.markdown);
    if cfg.verbose {
      events := events + [Finished(path, cfg.showTime)];
    }
    assert events == relayed + (if cfg.verbose then [Finished(path, cfg.showTime)] else []);
    ghost var finished := events;
    if res.exitCode != 0 && cfg.verbose {
      events := events + [NonZeroExit(path)];
    }
    assert events == finished + (if res.exitCode != 0 && cfg.verbose then [NonZeroExit(path)] else []);
  }

  /** One iteration of the entry loop of RunParts: the skip rules, then the
      run of the child. The status says whether the loop goes on (the
      `continue`s and the fall-through) or the process exits. */
  method RunEntry(cfg: Config, dir: string, f: Entry) returns (r: Run)
    ensures r == Step(cfg, dir, f)
  {
    var path := Path(dir, f.name);
    if f.name[0] == '.' {
      return Run([], if cfg.verbose then [SkippedDotfile(path)] else [], Continue);
    }
    if !IsExecutable(f.stat) {
      return Run([], if cfg.verbose then [SkippedNonExecutable(path)] else [], Continue);
    }
    var res, events := RunChild(cfg, path, f.child);
    var status := Continue;
    if res.exitCode != 0 && cfg.exitOnError {
      status := Exit(1);
    }
    return Run([Job(dir, f)], events, status);
  }

  /** RunParts: list one directory argument and run its entries in order;
      an unreadable directory, or a failing entry under exit-on-error, exits
      with status 1. */
  method RunParts(cfg: Config, d: Directory) returns (r: Run)
    ensures r == RunDir(cfg, d)
    ensures r.status == Continue || r.status == Exit(1)
  {
    if d.listing.Unreadable? {
      return Run([], [ReadDirError(d.path)], Exit(1));
    }
    var files := d.listing.files;
    var executed: seq<Job> := [];
    var events: seq<Event> := [];
    for i := 0 to |files|
      invariant RunEntries(cfg, d.path, files[..i]) == Run(executed, events, Continue)
    {
      assert files[..i + 1][..i] == files[..i];
      var step := RunEntry(cfg, d.path, files[i]);
      assert RunEntries(cfg, d.path, files[..i + 1]) == Then(Run(executed, events, Continue), step);
      executed := executed + step.executed;
      events := events + step.events;
      if step.status != Continue {
        EntriesExitIsFinal(cfg, d.path, files, i + 1);
        return Run(executed, events, step.status);
      }
    }
    assert files[..|files|] == files;
    return Run(executed, events, Continue);
  }

  /** main: the version flag wins; no directory argument is a usage error with
      status 1; otherwise the directories run in argument order, the first
      exit ends the run with its status, and a run that gets through them all
      exits 0. */
  method RunDirectory(args: Arguments) returns (o: Outcome)
    ensures args.showVersion ==> o == Outcome([], [Version], 0)
    ensures !args.showVersion && args.dirs == [] ==> o == Outcome([], [Usage], 1)
    ensures !args.showVersion && args.dirs != [] ==>
              var r := RunDirs(args.config, args.dirs);
              o.executed == r.executed && o.events == r.events
              && o.exitStatus == (if r.status == Continue then 0 else 1)
    ensures !args.showVersion && args.dirs != [] ==>
              o.executed == Expected(args.config, Candidates(args.dirs))
              && (o.exitStatus == 1 <==> Blocked(args.dirs) || (args.config.exitOnError && AnyFails(Candidates(args.dirs))))
              && (o.exitStatus == 0 || o.exitStatus == 1)
  {
    if args.showVersion {
      return Outcome([], [Version], 0);
    }
    if |args.dirs| < 1 {
      return Outcome([], [Usage], 1);
    }
    var cfg, dirs := args.config, args.dirs;
    var executed: seq<Job> := [];
    var events: seq<Event> := [];
    for k := 0 to |dirs|
      invariant RunDirs(cfg, dirs[..k]) == Run(executed, events, Continue)
    {
      assert dirs[..k + 1] == dirs[..k] + [dirs[k]];
      assert dirs[..k + 1][..k] == dirs[..k];
      var part := RunParts(cfg, dirs[k]);
      executed := executed + part.executed;
      events := events + part.events;
      if part.status != Continue {
        DirsExitIsFinal(cfg, dirs, k + 1);
        RunFollowsPolicy(cfg, dirs);
        return Outcome(executed, events, part.status.code);
      }
    }
    assert dirs[..|dirs|] == dirs;
    RunFollowsPolicy(cfg, dirs);
    return Outcome(executed, events, 0);
  }
}
