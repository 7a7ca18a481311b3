/** What the runner writes while it works. Each print statement of the runner
    becomes one event; captured output is carried as text, the runner's own
    trace and diagnostic lines as abstract events. Everything goes to the
    runner's standard output, including the children's captured stderr. */
module Output {
  import opened Lines

  /** filepath.Join(dir, name), kept as its two parts. */
  datatype Path = Path(dir: string, name: string)

  datatype Event =
    | Print(text: string)                     // captured output, relayed
    | SkippedDotfile(path: Path)              // verbose: "Skipping dotfile"
    | SkippedNonExecutable(path: Path)        // verbose: "Skipping non-executable"
    | Launching(path: Path)                   // verbose: "- launching"
    | Finished(path: Path, timed: bool)       // verbose: "- completed", with the elapsed time when timed
    | NonZeroExit(path: Path)                 // verbose: "returned non-zero exit-code"
    | ReadDirError(dir: string)               // "error reading directory contents"
    | Usage                                   // the usage line
    | Version                                 // the version banner

  /** One markdown output line: four spaces, the segment, a newline. */
  function Indent(seg: string): string
  {
    "    " + seg + "\n"
  }

  /** The prints for a sequence of kept segments, one per segment. */
  function IndentedPrints(segs: seq<string>): seq<Event>
  {
    seq(|segs|, i requires 0 <= i < |segs| => Print(Indent(segs[i])))
  }

  /** How one captured buffer is relayed: nothing when it is empty, otherwise
      verbatim, or in markdown mode one indented print per non-empty line. */
  function Relay(text: string, markdown: bool): (r: seq<Event>)
    ensures text == "" ==> r == []
    ensures !markdown ==> |r| <= 1
    ensures forall i :: 0 <= i < |r| ==> r[i].Print? && r[i].text != ""
  {
    if |text| == 0 then []
    else if markdown then IndentedPrints(NonBlank(Split(text)))
    else [Print(text)]
  }

  /** Everything the events put on the runner's stdout as captured text. */
  function Printed(evs: seq<Event>): string
  {
    if evs == [] then ""
    else (if evs[0].Print? then evs[0].text else "") + Printed(evs[1..])
  }

  lemma {:induction false} PrintedAppend(a: seq<Event>, b: seq<Event>)
    ensures Printed(a + b) == Printed(a) + Printed(b)
  {
    if a == [] {
      assert a + b == b;
    } else {
      assert (a + b)[0] == a[0] && (a + b)[1..] == a[1..] + b;
      PrintedAppend(a[1..], b);
    }
  }

  /** The events that carry captured output, in order; trace and diagnostic
      lines are dropped. */
  function Captured(evs: seq<Event>): (r: seq<Event>)
    ensures |r| <= |evs|
    ensures forall i :: 0 <= i < |r| ==> r[i].Print?
  {
    if evs == [] then []
    else (if evs[0].Print? then [evs[0]] else []) + Captured(evs[1..])
  }

  lemma {:induction false} CapturedAppend(a: seq<Event>, b: seq<Event>)
    ensures Captured(a + b) == Captured(a) + Captured(b)
  {
    if a == [] {
      assert a + b == b;
    } else {
      assert (a + b)[0] == a[0] && (a + b)[1..] == a[1..] + b;
      CapturedAppend(a[1..], b);
    }
  }

  /** Events that are all prints are kept whole; events none of which is a
      print leave nothing. */
  lemma {:induction false} CapturedAll(evs: seq<Event>)
    ensures (forall i :: 0 <= i < |evs| ==> evs[i].Print?) ==> Captured(evs) == evs
    ensures (forall i :: 0 <= i < |evs| ==> !evs[i].Print?) ==> Captured(evs) == []
  {
    if evs != [] {
      CapturedAll(evs[1..]);
      assert forall i :: 0 <= i < |evs[1..]| ==> evs[1..][i] == evs[i + 1];
    }
  }

  /** A relayed buffer consists of captured output only. */
  lemma RelayCaptured(text: string, markdown: bool)
    ensures Captured(Relay(text, markdown)) == Relay(text, markdown)
  {
    CapturedAll(Relay(text, markdown));
  }

  /** The markdown loop: split the text on newlines and print every non-empty
      segment indented by four spaces, in order. */
  method RelayMarkdown(text: string) returns (out: seq<Event>)
    ensures |out| == |NonBlank(Split(text))|
    ensures forall i :: 0 <= i < |out| ==> out[i] == Print("    " + NonBlank(Split(text))[i] + "\n")
  {
    var temp := Split(text);
    out := [];
    for k := 0 to |temp|
      invariant |out| == |NonBlank(temp[..k])|
      invariant forall i :: 0 <= i < |out| ==> out[i] == Print("    " + NonBlank(temp[..k])[i] + "\n")
    {
      var line := temp[k];
      if |line| > 0 {
        out := out + [Print("    " + line + "\n")];
      }
      assert temp[..k + 1] == temp[..k] + [line];
      NonBlankAppend(temp[..k], [line]);
      assert NonBlank([line]) == (if line == "" then [] else [line]);
    }
    assert temp[..|temp|] == temp;
  }

  /** Without markdown, a buffer reaches the runner's stdout verbatim, and an
      empty buffer prints nothing at all. */
  lemma RelayVerbatim(text: string)
    ensures Printed(Relay(text, false)) == text
    ensures text == "" ==> Relay(text, true) == [] && Relay(text, false) == []
  {
    if text != "" {
      assert Printed([Print(text)]) == text + Printed([]);
    }
  }

  /** In markdown mode there are as many prints as non-empty segments, in
      the order of the segments, and every print is four spaces, a non-empty
      piece of the text holding no newline, and a newline. Text made only of
      newlines prints nothing. */
  lemma MarkdownShape(text: string)
    ensures |Relay(text, true)| == |NonBlank(Split(text))|
    ensures forall i :: 0 <= i < |Relay(text, true)| ==>
              Relay(text, true)[i] == Print("    " + NonBlank(Split(text))[i] + "\n")
    ensures forall i :: 0 <= i < |Relay(text, true)| ==>
              NonBlank(Split(text))[i] in Split(text) && NonBlank(Split(text))[i] != ""
              && '\n' !in NonBlank(Split(text))[i]
  {
    if text == "" {
      assert NonBlank([""]) == [];
    }
    forall i | 0 <= i < |NonBlank(Split(text))|
      ensures NonBlank(Split(text))[i] in Split(text)
    {
      assert NonBlank(Split(text))[i] in NonBlank(Split(text));
    }
  }

  /** A child that writes the non-empty lines `ls`, each ended by a newline,
      has exactly those lines printed back, each indented, in markdown mode;
      and its text printed once, verbatim, otherwise. */
  lemma {:induction false} RelayLines(ls: seq<string>)
    requires forall i :: 0 <= i < |ls| ==> ls[i] != "" && '\n' !in ls[i]
    ensures Relay(Terminated(ls), true) == IndentedPrints(ls)
    ensures ls != [] ==> Relay(Terminated(ls), false) == [Print(Terminated(ls))]
  {
    NonBlankOfTerminated(ls);
    if ls != [] {
      assert |Terminated(ls)| > 0;
    }
  }

  /** The two lines "hello" and "world", each ended by a newline, are the
      text "hello\nworld\n". */
  lemma HelloWorldText()
    ensures Terminated(["hello", "world"]) == "hello\nworld\n"
  {
    var ls := ["hello", "world"];
    assert ls[1..] == ["world"] && ls[1..][1..] == [];
    assert Terminated(ls[1..]) == "world" + "\n" + Terminated([]);
    assert Terminated(ls) == "hello" + "\n" + ("world" + "\n");
  }

  /** The two-line example: a child printing "hello\nworld\n" has
      "    hello\n" and "    world\n" printed back in markdown mode, and its
      text printed once, verbatim, otherwise. */
  lemma HelloWorld()
    ensures Relay("hello\nworld\n", true) == [Print("    hello\n"), Print("    world\n")]
    ensures Relay("hello\nworld\n", false) == [Print("hello\nworld\n")]
  {
    var ls := ["hello", "world"];
    HelloWorldText();
    RelayLines(ls);
    assert IndentedPrints(ls) == [Print(Indent(ls[0])), Print(Indent(ls[1]))];
    assert Indent(ls[0]) == "    hello\n" && Indent(ls[1]) == "    world\n";
  }
}
