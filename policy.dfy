/** The failure policy stated without the loops: which entries a run executes
    and the status it ends with, read off the directory arguments directly.
    The theorems at the end show that the loop-shaped definitions in
    Semantics agree with this reading. */
module Policy {
  import opened Command
  import opened Output
  import opened Semantics

  /** The entries of one readable directory that pass the skip rules, in order. */
  function Runnable(dir: string, files: seq<Entry>): seq<Job>
  {
    if files == [] then []
    else JobsOf(dir, files[0]) + Runnable(dir, files[1..])
  }

  /** Some directory argument cannot be listed. */
  predicate Blocked(dirs: seq<Directory>)
  {
    dirs != [] && (dirs[0].listing.Unreadable? || Blocked(dirs[1..]))
  }

  /** The runnable entries of every directory argument before the first unreadable one. */
  function Candidates(dirs: seq<Directory>): seq<Job>
  {
    if dirs == [] then []
    else
      match dirs[0].listing
      case Unreadable(_) => []
      case Entries(files) => Runnable(dirs[0].path, files) + Candidates(dirs[1..])
  }

  /** Some job's child exits with a non-zero code. */
  predicate AnyFails(js: seq<Job>)
  {
    js != [] && (Fails(js[0].entry) || AnyFails(js[1..]))
  }

  /** AnyFails says what its name says: some position holds a failing job. */
  lemma {:induction false} AnyFailsAt(js: seq<Job>)
    ensures AnyFails(js) <==> exists i :: 0 <= i < |js| && Fails(js[i].entry)
  {
    if js != [] {
      AnyFailsAt(js[1..]);
      if exists i :: 0 <= i < |js| && Fails(js[i].entry) {
        var i :| 0 <= i < |js| && Fails(js[i].entry);
        if i > 0 { assert js[1..][i - 1] == js[i]; }
      }
      if exists i :: 0 <= i < |js[1..]| && Fails(js[1..][i].entry) {
        var i :| 0 <= i < |js[1..]| && Fails(js[1..][i].entry);
        assert js[i + 1] == js[1..][i];
      }
    }
  }

  /** The jobs up to and including the first failing one (all of them when none fails). */
  function UpToFirstFailure(js: seq<Job>): seq<Job>
  {
    if js == [] then []
    else if Fails(js[0].entry) then [js[0]]
    else [js[0]] + UpToFirstFailure(js[1..])
  }

  /** The cut is a prefix in which only the last job may fail; it ends with a
      failing job when there is one, and keeps every job when there is none. */
  lemma {:induction false} UpToFirstFailureShape(js: seq<Job>)
    ensures var r := UpToFirstFailure(js);
            r <= js
            && (forall i :: 0 <= i < |r| - 1 ==> !Fails(r[i].entry))
            && (AnyFails(js) ==> r != [] && Fails(r[|r| - 1].entry))
            && (!AnyFails(js) ==> r == js)
  {
    if js != [] && !Fails(js[0].entry) {
      UpToFirstFailureShape(js[1..]);
      var rest := UpToFirstFailure(js[1..]);
      assert UpToFirstFailure(js) == [js[0]] + rest;
      assert js == [js[0]] + js[1..];
    }
  }

  /** The executions the policy allows out of the candidates. */
  function Expected(cfg: Config, js: seq<Job>): seq<Job>
  {
    if cfg.exitOnError then UpToFirstFailure(js) else js
  }

  /** The status the policy gives a run over `dirs`. */
  function ExpectedStatus(cfg: Config, dirs: seq<Directory>): Status
  {
    if Blocked(dirs) || (cfg.exitOnError && AnyFails(Candidates(dirs))) then Exit(1) else Continue
  }

  /** The jobs one entry contributes: itself when it passes the skip rules. */
  function JobsOf(dir: string, e: Entry): seq<Job>
  {
    if Decide(e) == Execute then [Job(dir, e)] else []
  }

  lemma {:induction false} RunnableSnoc(dir: string, files: seq<Entry>, e: Entry)
    ensures Runnable(dir, files + [e]) == Runnable(dir, files) + JobsOf(dir, e)
  {
    var fs := files + [e];
    if files == [] {
      assert fs == [e] && fs[1..] == [];
      assert Runnable(dir, fs) == JobsOf(dir, e) + Runnable(dir, []);
    } else {
      assert fs[0] == files[0] && fs[1..] == files[1..] + [e];
      RunnableSnoc(dir, files[1..], e);
      assert Runnable(dir, fs) == JobsOf(dir, files[0]) + Runnable(dir, fs[1..]);
      assert Runnable(dir, files) == JobsOf(dir, files[0]) + Runnable(dir, files[1..]);
    }
  }

  lemma {:induction false} CandidatesSnoc(dirs: seq<Directory>, d: Directory)
    ensures Candidates(dirs + [d]) ==
              if Blocked(dirs) then Candidates(dirs) else Candidates(dirs) + Candidates([d])
    ensures Blocked(dirs + [d]) <==> Blocked(dirs) || d.listing.Unreadable?
  {
    var ds := dirs + [d];
    if dirs == [] {
      assert ds == [d];
    } else {
      assert ds[0] == dirs[0] && ds[1..] == dirs[1..] + [d];
      CandidatesSnoc(dirs[1..], d);
      match dirs[0].listing
      case Unreadable(_) =>
        assert Candidates(ds) == [] == Candidates(dirs);
      case Entries(files) =>
        var head := Runnable(dirs[0].path, files);
        assert Candidates(ds) == head + Candidates(dirs[1..] + [d]);
        assert Candidates(dirs) == head + Candidates(dirs[1..]);
    }
  }

  /** Cutting at the first failure: failing jobs before `b` cut it off entirely. */
  lemma {:induction false} UpToFirstFailureAppend(a: seq<Job>, b: seq<Job>)
    ensures UpToFirstFailure(a + b) == if AnyFails(a) then UpToFirstFailure(a) else a + UpToFirstFailure(b)
    ensures AnyFails(a + b) <==> AnyFails(a) || AnyFails(b)
  {
    if a == [] {
      assert a + b == b;
    } else {
      assert (a + b)[0] == a[0] && (a + b)[1..] == a[1..] + b;
      UpToFirstFailureAppend(a[1..], b);
      if !Fails(a[0].entry) {
        assert [a[0]] + (a[1..] + UpToFirstFailure(b)) == a + UpToFirstFailure(b);
      }
    }
  }

  /** The entry loop of one directory executes exactly the runnable entries,
      cut after the first failure when exit-on-error is on, and exits with
      status 1 exactly when exit-on-error is on and some runnable entry fails. */
  lemma {:induction false} EntriesFollowPolicy(cfg: Config, dir: string, files: seq<Entry>)
    ensures RunEntries(cfg, dir, files).executed == Expected(cfg, Runnable(dir, files))
    ensures RunEntries(cfg, dir, files).status ==
              if cfg.exitOnError && AnyFails(Runnable(dir, files)) then Exit(1) else Continue
    decreases |files|
  {
    if files != [] {
      var front, e := files[..|files| - 1], files[|files| - 1];
      assert files == front + [e];
      EntriesFollowPolicy(cfg, dir, front);
      RunnableSnoc(dir, front, e);
      var prev := RunEntries(cfg, dir, front);
      var R, S := Runnable(dir, front), JobsOf(dir, e);
      UpToFirstFailureAppend(R, S);
      assert AnyFails(S) <==> Decide(e) == Execute && Fails(e) by {
        assert [Job(dir, e)][1..] == [];
      }
      if prev.status != Continue {
        assert RunEntries(cfg, dir, files) == prev;
      } else {
        assert RunEntries(cfg, dir, files) == Then(prev, Step(cfg, dir, e));
        UpToFirstFailureShape(R);
        assert UpToFirstFailure(S) == S by {
          if S != [] { assert S[1..] == []; }
        }
      }
    }
  }

  /** The whole run executes the runnable entries of the directory arguments
      before the first unreadable one, cut after the first failure when
      exit-on-error is on; it exits with status 1 exactly when some argument
      cannot be listed or exit-on-error meets a failing entry. */
  lemma {:induction false} RunFollowsPolicy(cfg: Config, dirs: seq<Directory>)
    ensures RunDirs(cfg, dirs).executed == Expected(cfg, Candidates(dirs))
    ensures RunDirs(cfg, dirs).status == ExpectedStatus(cfg, dirs)
    decreases |dirs|
  {
    if dirs != [] {
      var front, d := dirs[..|dirs| - 1], dirs[|dirs| - 1];
      assert dirs == front + [d];
      RunFollowsPolicy(cfg, front);
      CandidatesSnoc(front, d);
      var prev := RunDirs(cfg, front);
      if prev.status != Continue {
        assert RunDirs(cfg, dirs) == prev;
        if !Blocked(front) {
          UpToFirstFailureAppend(Candidates(front), Candidates([d]));
        }
      } else {
        assert RunDirs(cfg, dirs) == Then(prev, RunDir(cfg, d));
        NextDirFollowsPolicy(cfg, front, d);
      }
    }
  }

  /** The induction step of RunFollowsPolicy when the run is still going
      after `front`: the next directory extends it as the policy says. */
  lemma NextDirFollowsPolicy(cfg: Config, front: seq<Directory>, d: Directory)
    requires RunDirs(cfg, front).executed == Expected(cfg, Candidates(front))
    requires RunDirs(cfg, front).status == ExpectedStatus(cfg, front) == Continue
    ensures var r := Then(RunDirs(cfg, front), RunDir(cfg, d));
            r.executed == Expected(cfg, Candidates(front + [d]))
            && r.status == ExpectedStatus(cfg, front + [d])
  {
    var prev := RunDirs(cfg, front);
    var C := Candidates(front);
    CandidatesSnoc(front, d);
    UpToFirstFailureShape(C);
    assert [d][0] == d && [d][1..] == [];
    match d.listing
    case Unreadable(_) =>
      assert Candidates([d]) == [];
      assert Candidates(front + [d]) == C + [] == C;
      assert RunDir(cfg, d).executed == [];
      assert prev.executed + [] == prev.executed;
    case Entries(files) =>
      EntriesFollowPolicy(cfg, d.path, files);
      var Rn := Runnable(d.path, files);
      assert Candidates([d]) == Rn + Candidates([]);
      assert Candidates(front + [d]) == C + Rn;
      ContinueWith(cfg, C, Rn);
  }

  /** Jobs that ran with no failure stopping them, followed by a directory's jobs. */
  lemma ContinueWith(cfg: Config, C: seq<Job>, Rn: seq<Job>)
    requires !(cfg.exitOnError && AnyFails(C))
    ensures Expected(cfg, C + Rn) == Expected(cfg, C) + Expected(cfg, Rn)
    ensures cfg.exitOnError ==> (AnyFails(C + Rn) <==> AnyFails(Rn))
  {
    UpToFirstFailureShape(C);
    UpToFirstFailureAppend(C, Rn);
    if !cfg.exitOnError {
      assert Expected(cfg, C + Rn) == C + Rn;
    }
  }

  /** With exit-on-error off and every argument readable, every runnable entry
      of every directory runs exactly once, in order, and the run succeeds. */
  lemma RunsEverything(cfg: Config, dirs: seq<Directory>)
    requires !cfg.exitOnError && !Blocked(dirs)
    ensures RunDirs(cfg, dirs).executed == Candidates(dirs)
    ensures RunDirs(cfg, dirs).status == Continue
  {
    RunFollowsPolicy(cfg, dirs);
  }

  /** With exit-on-error on, every execution but the last succeeded; a failing
      last execution ends the run with status 1, and no job after it runs. */
  lemma StopsAtFirstFailure(cfg: Config, dirs: seq<Directory>)
    requires cfg.exitOnError
    ensures var r := RunDirs(cfg, dirs);
            r.executed <= Candidates(dirs)
            && (forall i :: 0 <= i < |r.executed| - 1 ==> !Fails(r.executed[i].entry))
            && (r.executed != [] && Fails(r.executed[|r.executed| - 1].entry) ==> r.status == Exit(1))
            && (AnyFails(Candidates(dirs)) ==>
                  r.status == Exit(1) && r.executed != [] && Fails(r.executed[|r.executed| - 1].entry))
  {
    RunFollowsPolicy(cfg, dirs);
    var C := Candidates(dirs);
    UpToFirstFailureShape(C);
    AnyFailsAt(C);
    var r := RunDirs(cfg, dirs);
    if r.executed != [] && Fails(r.executed[|r.executed| - 1].entry) {
      assert C[|r.executed| - 1] == r.executed[|r.executed| - 1];
    }
  }

  /** Three runnable entries whose children exit 0, non-zero and 0: with
      exit-on-error the third is never run and the run exits 1; without it all
      three run and the run succeeds. */
  lemma ThreeScripts(cfg: Config, path: string, a: Entry, b: Entry, c: Entry)
    requires Decide(a) == Execute && Decide(b) == Execute && Decide(c) == Execute
    requires !Fails(a) && Fails(b) && !Fails(c)
    ensures var r := RunDirs(cfg, [Directory(path, Entries([a, b, c]))]);
            if cfg.exitOnError
            then r.executed == [Job(path, a), Job(path, b)] && r.status == Exit(1)
            else r.executed == [Job(path, a), Job(path, b), Job(path, c)] && r.status == Continue
  {
    var dirs := [Directory(path, Entries([a, b, c]))];
    var js := [Job(path, a), Job(path, b), Job(path, c)];
    assert [a, b, c][1..] == [b, c] && [b, c][1..] == [c] && [c][1..] == [];
    assert Runnable(path, [c]) == [Job(path, c)] + Runnable(path, []);
    assert Runnable(path, [b, c]) == [Job(path, b)] + [Job(path, c)];
    assert Runnable(path, [a, b, c]) == [Job(path, a)] + [Job(path, b), Job(path, c)] == js;
    assert dirs[1..] == [];
    assert Candidates(dirs) == js + Candidates([]) == js;
    assert js[1..] == [Job(path, b), Job(path, c)];
    assert UpToFirstFailure(js[1..]) == [Job(path, b)];
    assert UpToFirstFailure(js) == [Job(path, a)] + [Job(path, b)] == [Job(path, a), Job(path, b)];
    assert AnyFails(js) by {
      assert !Fails(js[0].entry) && Fails(js[1..][0].entry);
    }
    assert !Blocked(dirs) by {
      assert dirs[0].listing.Entries? && !Blocked(dirs[1..]);
    }
    RunFollowsPolicy(cfg, dirs);
  }

  /** Membership in Runnable is exactly "listed in the directory and passing both skip rules". */
  lemma {:induction false} RunnableExactly(dir: string, files: seq<Entry>, j: Job)
    ensures j in Runnable(dir, files) <==> j.dir == dir && j.entry in files && Decide(j.entry) == Execute
  {
    if files != [] {
      RunnableExactly(dir, files[1..], j);
      assert files == [files[0]] + files[1..];
    }
  }

  /** The captured output of the given jobs, relayed in order, stdout before stderr for each. */
  function Relays(markdown: bool, js: seq<Job>): seq<Event>
  {
    if js == [] then []
    else
      var res := RunCommand(js[0].entry.child);
      Relay(res.stdout, markdown) + Relay(res.stderr, markdown) + Relays(markdown, js[1..])
  }

  lemma {:induction false} RelaysAppend(markdown: bool, a: seq<Job>, b: seq<Job>)
    ensures Relays(markdown, a + b) == Relays(markdown, a) + Relays(markdown, b)
  {
    if a == [] {
      assert a + b == b;
    } else {
      assert (a + b)[0] == a[0] && (a + b)[1..] == a[1..] + b;
      RelaysAppend(markdown, a[1..], b);
    }
  }

  /** Without verbose mode one entry prints only its child's captured output, if it runs. */
  lemma QuietStep(cfg: Config, dir: string, e: Entry)
    requires !cfg.verbose
    ensures Step(cfg, dir, e).events == Relays(cfg.markdown, Step(cfg, dir, e).executed)
  {
    var st := Step(cfg, dir, e);
    if Decide(e) == Execute {
      assert st.executed[1..] == [];
      var res := RunCommand(e.child);
      assert ExecutionEvents(cfg, Path(dir, e.name), res)
          == [] + Relay(res.stdout, cfg.markdown) + Relay(res.stderr, cfg.markdown) + [] + [];
    }
  }

  /** Without verbose mode a directory prints nothing but the captured output
      of the entries it executed, in execution order. */
  lemma {:induction false} QuietEntries(cfg: Config, dir: string, files: seq<Entry>)
    requires !cfg.verbose
    ensures RunEntries(cfg, dir, files).events == Relays(cfg.markdown, RunEntries(cfg, dir, files).executed)
    decreases |files|
  {
    if files != [] {
      var front, e := files[..|files| - 1], files[|files| - 1];
      QuietEntries(cfg, dir, front);
      var prev := RunEntries(cfg, dir, front);
      if prev.status == Continue {
        var st := Step(cfg, dir, e);
        assert RunEntries(cfg, dir, files) == Then(prev, st);
        RelaysAppend(cfg.markdown, prev.executed, st.executed);
        QuietStep(cfg, dir, e);
      }
    }
  }

  /** Without verbose mode, and with every directory argument readable, the
      run prints nothing but the captured output of what it executed, in order. */
  lemma {:induction false} QuietRun(cfg: Config, dirs: seq<Directory>)
    requires !cfg.verbose && !Blocked(dirs)
    ensures RunDirs(cfg, dirs).events == Relays(cfg.markdown, RunDirs(cfg, dirs).executed)
    decreases |dirs|
  {
    if dirs != [] {
      var front, d := dirs[..|dirs| - 1], dirs[|dirs| - 1];
      assert dirs == front + [d];
      CandidatesSnoc(front, d);
      QuietRun(cfg, front);
      var prev := RunDirs(cfg, front);
      if prev.status == Continue {
        var part := RunDir(cfg, d);
        assert RunDirs(cfg, dirs) == Then(prev, part);
        QuietEntries(cfg, d.path, d.listing.files);
        RelaysAppend(cfg.markdown, prev.executed, part.executed);
      }
    }
  }

  /** Whatever the flags, the captured output of one entry is its child's
      relayed output if it runs, and nothing if it is skipped. */
  lemma CapturedStep(cfg: Config, dir: string, e: Entry)
    ensures Captured(Step(cfg, dir, e).events) == Relays(cfg.markdown, Step(cfg, dir, e).executed)
  {
    var st := Step(cfg, dir, e);
    if Decide(e) == Execute {
      var res := RunCommand(e.child);
      var js := [Job(dir, e)];
      assert st.events == ExecutionEvents(cfg, Path(dir, e.name), res);
      CapturedExecution(cfg, Path(dir, e.name), res);
      assert js[1..] == [];
      assert Relays(cfg.markdown, js) == Relay(res.stdout, cfg.markdown) + Relay(res.stderr, cfg.markdown) + [];
    } else {
      SkipEvents(cfg, dir, e);
      TraceUncaptured(st.events);
    }
  }

  /** Whatever the flags, the captured output of a directory is the relayed
      output of the entries it executed, in execution order. */
  lemma {:induction false} CapturedEntries(cfg: Config, dir: string, files: seq<Entry>)
    ensures Captured(RunEntries(cfg, dir, files).events) == Relays(cfg.markdown, RunEntries(cfg, dir, files).executed)
    decreases |files|
  {
    if files != [] {
      var front, e := files[..|files| - 1], files[|files| - 1];
      CapturedEntries(cfg, dir, front);
      var prev := RunEntries(cfg, dir, front);
      if prev.status == Continue {
        var st := Step(cfg, dir, e);
        assert RunEntries(cfg, dir, files) == Then(prev, st);
        CapturedAppend(prev.events, st.events);
        RelaysAppend(cfg.markdown, prev.executed, st.executed);
        CapturedStep(cfg, dir, e);
      }
    }
  }

  /** Whatever the flags and whether or not some directory is unreadable, the
      captured output of the whole run is the relayed output of what it
      executed, in order: stdout before stderr for each execution, indented
      line by line in markdown mode. */
  lemma {:induction false} CapturedRun(cfg: Config, dirs: seq<Directory>)
    ensures Captured(RunDirs(cfg, dirs).events) == Relays(cfg.markdown, RunDirs(cfg, dirs).executed)
    decreases |dirs|
  {
    if dirs != [] {
      var front, d := dirs[..|dirs| - 1], dirs[|dirs| - 1];
      CapturedRun(cfg, front);
      var prev := RunDirs(cfg, front);
      if prev.status == Continue {
        var part := RunDir(cfg, d);
        assert RunDirs(cfg, dirs) == Then(prev, part);
        CapturedAppend(prev.events, part.events);
        RelaysAppend(cfg.markdown, prev.executed, part.executed);
        if d.listing.Unreadable? {
          CapturedAll(part.events);
        } else {
          CapturedEntries(cfg, d.path, d.listing.files);
        }
      }
    }
  }
}
