# run-directory, modelled in Dafny

run-directory (`rd`) is a small command-line runner. It takes one or more
directory arguments, lists each directory's immediate entries, skips dotfiles
and entries that are not executable, and runs every remaining entry in turn
with no arguments. It relays each child's captured stdout and stderr, with
four-space indentation per non-empty line in `-markdown` mode, and prints
trace lines in `-verbose` mode. Under `-exit-on-error` (on by default) the
first child with a non-zero exit code ends the whole process with status 1.
A directory that cannot be listed also ends the process with status 1. A run
that gets through every argument exits 0.

This project models the decision core of `main.go` over abstract inputs:

- A directory argument is either unreadable or a sequence of entries.
- Each entry carries a non-empty name, the result of `os.Stat` on its path,
  and the run its child would make: how `cmd.Run` ended, and the text
  written to each stream.
- The process's output is a sequence of events. There is one event per
  print statement: captured text is carried verbatim, and the trace and
  diagnostic lines are abstract constructors.

Modules:

- `Lines` (`lines.dfy`): `strings.Split(s, "\n")`, its inverse, and the
  filter that drops empty segments.
- `Command` (`command.dfy`): the executable filter `IsExecutable` over the
  Go file mode (a `bv32`, with the directory bit `1 << 31`), and the
  exit-code selection of `RunCommand`.
- `Output` (`output.dfy`): the events, how one captured buffer is relayed,
  and the markdown loop as a method.
- `Semantics` (`semantics.dfy`): the entry loop and the directory loop as
  functions, one iteration at a time, with `os.Exit` replaced by a returned
  `Exit(code)` status.
- `Policy` (`policy.dfy`): the failure policy read off the inputs without any
  loop: the runnable entries, cut after the first failure under
  exit-on-error and stopped at the first unreadable directory. It also holds
  the theorems that the loop definitions agree with that reading.
- `Runner` (`runner.dfy`): the loops of `RunParts` and `main` as methods,
  each proved equal to its definition in `Semantics`.

Two details of `main.go` shape the model:

- The captured stderr is printed with `fmt.Print` (main.go:173), so it
  reaches the runner's standard output, not its standard error. In the
  model all events go to one stream.
- The filter rejects only directories (main.go:31). Special files such as
  sockets or devices that have an execute bit pass it.

## Model

| member | source | states |
|---|---|---|
| `Command.ExecutableIff` | main.go:26-34 | an entry is executable exactly when stat succeeded, the directory bit is clear, and at least one of the owner, group or other execute bits is set; a failed stat gives false |
| `Command.IsExecutable` | main.go:27-34 | only a path whose stat succeeded and that is not a directory can be executable; such a path with the owner execute bit set always is |
| `Command.RunCommand` | main.go:36-69 | stdout is passed through unchanged; a child that ran reports its own wait status and keeps its stderr; a launch failure reports 1; a non-empty stderr is never replaced; an empty stderr after a launch failure becomes the error text |
| `Command.SuccessIff` | main.go:47-67 | the exit code is 0 exactly when the child ran and reported status 0; a launch failure never counts as success |
| `Command.LaunchFailureVisible` | main.go:52-61 | a launch failure whose error has text always leaves non-empty stderr and a non-zero exit code |
| `Lines.Split` | main.go:145 | splitting gives one more segment than there are newlines, and no segment contains a newline |
| `Lines.JoinSplit` | main.go:145 | joining the segments with newlines gives back the original text |
| `Lines.SplitJoin` | main.go:145 | splitting joined newline-free segments gives back those segments |
| `Lines.NonBlank` | main.go:146-147 | the kept segments are exactly the non-empty ones, and there are no more of them than the input segments |
| `Lines.NonBlankAppend` | main.go:146-147 | dropping empty segments distributes over concatenation, so order is preserved |
| `Lines.NonBlankOfTerminated` | main.go:145-147 | text made of non-empty newline-terminated lines keeps exactly those lines; the trailing empty segment is dropped |
| `Output.RelayMarkdown` | main.go:144-150 | the markdown loop prints one line per non-empty segment, in segment order, each being four spaces, the segment and a newline |
| `Output.Relay` | main.go:138-175 | one buffer relays as captured-text prints only, none of them empty; an empty buffer prints nothing, and without markdown there is at most one print |
| `Output.MarkdownShape` | main.go:144-150 | in markdown mode there are exactly as many prints as non-empty segments, for every text, so text made only of newlines prints nothing; each print is four spaces, a non-empty newline-free segment of the text in segment order, and a newline |
| `Output.RelayVerbatim` | main.go:138-154 | without markdown a buffer reaches the runner's stdout verbatim; an empty buffer prints nothing in either mode |
| `Output.RelayLines` | main.go:144-153 | a child printing non-empty lines, each ended by a newline, gets exactly those lines back indented in markdown mode, and its text printed once otherwise |
| `Output.HelloWorld` | main.go:138-154 | the output "hello\nworld\n" is printed as "    hello\n" and "    world\n" in markdown mode, and as one verbatim print otherwise |
| `Semantics.Decide` | main.go:93-111 | an entry is executed exactly when its name does not start with a dot and it passes the filter; a dot-name is skipped as a dotfile whatever its stat; any other entry that fails the filter is skipped as non-executable |
| `Semantics.IsDotfile` | main.go:96 | an entry is a dotfile exactly when its name begins with "." |
| `Semantics.Step` | main.go:86-202 | one iteration executes the entry exactly when both skip rules pass; it ends the run, with status 1, exactly when the entry ran, its exit code is non-zero and exit-on-error is on |
| `Semantics.ExecutionEvents` | main.go:116-200 | without verbose mode an execution prints only the relayed stdout followed by the relayed stderr; in any mode every line it prints is captured output, the launch line, the completion line or the non-zero warning |
| `Semantics.VerboseTrace` | main.go:116-196 | in verbose mode an execution prints the launch line, the relayed stdout, the relayed stderr and the completion line, in that order, followed by the non-zero warning exactly when the exit code is not 0, so the warning is last and the completion line comes just before it |
| `Semantics.CapturedExecution` | main.go:116-196 | whatever the flags, the captured output of one execution is its relayed stdout followed by its relayed stderr, indented line by line in markdown mode; the trace lines around it carry none of it |
| `Semantics.RunEntries` | main.go:86-202 | the entry loop either goes on or exits with status 1, and every execution it records is of an entry of that directory that passes both skip rules |
| `Semantics.RunDir` | main.go:72-81 | an unreadable directory prints the read error and exits 1 without executing anything; otherwise only the directory's runnable entries execute |
| `Semantics.RunDirs` | main.go:237-239 | the directory loop either gets through every argument or exits with status 1, and no dotfile and no non-executable entry is ever executed |
| `Semantics.EntriesExitIsFinal` | main.go:193-199 | once an entry exits the process, the later entries of the directory change nothing |
| `Semantics.DirsExitIsFinal` | main.go:237-239 | once a directory exits the process, the later directory arguments change nothing |
| `Semantics.DotfileIgnored` | main.go:96-101 | a dot-entry is decided on its name alone: its stat result and its child play no part, so it is never stat'd and never run |
| `Semantics.SkipEvents` | main.go:96-111 | a skipped entry prints "skipping dotfile" or "skipping non-executable", whichever rule applies, in verbose mode, and nothing otherwise |
| `Semantics.VerbatimEvents` | main.go:116-187 | without markdown, one execution prints its child's stdout and then its stderr verbatim; the trace lines carry no captured text |
| `Semantics.VerbatimStep` | main.go:136-175 | without markdown, an executed entry relays its stdout and then its stderr verbatim, whatever the trace flags |
| `Semantics.UnreadableStops` | main.go:77-81 | an unreadable directory argument ends the run with status 1; nothing of it and nothing after it is processed |
| `Policy.UpToFirstFailureShape` | main.go:193-199 | the cut is a prefix in which only the last job may fail; it ends at the first failing job when there is one and keeps everything otherwise |
| `Policy.RunnableExactly` | main.go:93-111 | a job is runnable exactly when its entry is listed in that directory and passes both skip rules |
| `Policy.EntriesFollowPolicy` | main.go:86-202 | one directory executes exactly its runnable entries in enumeration order, cut after the first failure under exit-on-error; it exits 1 exactly when exit-on-error is on and some runnable entry fails |
| `Policy.RunFollowsPolicy` | main.go:72-244 | the whole run executes the runnable entries of the directories before the first unreadable one, in order, cut after the first failure under exit-on-error; it exits 1 exactly when some directory cannot be listed or exit-on-error meets a failing entry |
| `Policy.NextDirFollowsPolicy` | main.go:237-239 | a run still going after some directories extends by the next directory as the policy says |
| `Policy.RunsEverything` | main.go:86-244 | with exit-on-error off and every directory readable, every runnable entry of every directory runs once, in order, and the run succeeds |
| `Policy.StopsAtFirstFailure` | main.go:193-199 | with exit-on-error on, every execution but the last succeeded; a failing last execution means status 1; if any candidate fails, the run ends at a failing execution with status 1 |
| `Policy.ThreeScripts` | main.go:193-199 | three runnable scripts exiting 0, non-zero and 0: with exit-on-error the third never runs and the status is 1; without it all three run and the status is 0 |
| `Policy.QuietStep` | main.go:116-195 | without verbose mode an entry prints nothing but its child's relayed output, and only if it runs |
| `Policy.QuietEntries` | main.go:86-202 | without verbose mode a directory prints only the relayed output of the entries it executed, in execution order |
| `Policy.QuietRun` | main.go:237-239 | without verbose mode, and with every argument readable, the run prints only the relayed output of what it executed, in order |
| `Policy.CapturedStep` | main.go:96-187 | whatever the flags, one entry's captured output is its child's relayed output if it runs and nothing if it is skipped |
| `Policy.CapturedEntries` | main.go:86-202 | whatever the flags, a directory's captured output is the relayed output of the entries it executed, in execution order |
| `Policy.CapturedRun` | main.go:72-244 | whatever the flags, and also when an unreadable directory ends the run, the captured output of the whole run is the relayed output of what it executed, in order, stdout before stderr for each, indented in markdown mode |
| `Runner.Show` | main.go:138-175 | relaying one buffer prints nothing when it is empty, the indented non-empty lines in markdown mode, and the text verbatim otherwise |
| `Runner.RunChild` | main.go:113-200 | running the child, relaying its stdout and then its stderr, and printing the trace lines produce exactly the output of one execution, with the exit code RunCommand selects |
| `Runner.RunEntry` | main.go:91-200 | the loop body (skip rules, then the run of the child and the exit decision) produces exactly one step of the entry loop |
| `Runner.RunParts` | main.go:72-203 | the entry loop of one directory produces exactly the run the loop definition gives, which either goes on or exits with status 1 |
| `Runner.RunDirectory` | main.go:206-245 | `-version` prints the banner and exits 0 before any work; no directory argument prints usage and exits 1; otherwise the loop over directories executes what the policy allows and exits 1 exactly when a directory is unreadable or exit-on-error meets a failure, else 0 |

## Left out

- `os.Stat`, `ioutil.ReadDir`, `exec.Command` and the decoding of `syscall.WaitStatus` are operating-system calls. Their results are inputs: a stat result, a listing, and per entry the launch outcome with the decoded status and the captured text.
- The listing order is taken as given. `ioutil.ReadDir` sorts by name, and the model does not re-sort.
- `filepath.Join` is kept as a (directory, name) pair. Its path cleaning is not modelled.
- Wall-clock timing (`time.Now`, `Duration.Truncate` and its formatting) is not modelled. Only whether the completion trace line is timed is kept.
- The exact wording of the trace, usage, version and read-error lines is replaced by abstract event constructors. Their presence and order are kept.
- Flag parsing and flag defaults (`-exit-on-error` defaults to true) are left out. The model starts from the parsed flags and directory arguments.
- Entry names are non-empty by type. Directory listings never yield an empty name. The source indexes `name[0]` without a guard and would panic on one.
- The race between the filter and the launch, and a child that never exits, belong to the environment. They are not modelled.
- QuietRun: stated only for runs where every directory argument is readable. A run that meets an unreadable directory also ends with that directory's read-error line, and this lemma does not place that line; CapturedRun still fixes the captured output of such a run.
