/** Text handling behind the markdown re-indentation of captured output:
    splitting on newlines (Go's strings.Split(s, "\n")), joining back, and
    dropping the empty segments. */
module Lines {

  /** Number of newline characters in `s`. */
  function Newlines(s: string): nat
  {
    if s == [] then 0 else (if s[0] == '\n' then 1 else 0) + Newlines(s[1..])
  }

  /** The segments of `s` between newlines, as strings.Split(s, "\n") returns
      them: `n` newlines give `n + 1` segments, and the empty string gives one
      empty segment. */
  function Split(s: string): (r: seq<string>)
    ensures |r| == Newlines(s) + 1
    ensures forall i :: 0 <= i < |r| ==> '\n' !in r[i]
    decreases |s|
  {
    if s == [] then [""]
    else
      var rest := Split(s[1..]);
      if s[0] == '\n' then [""] + rest
      else [[s[0]] + rest[0]] + rest[1..]
  }

  /** The segments glued back together with a newline between each two. */
  function Join(segs: seq<string>): string
    requires |segs| > 0
  {
    if |segs| == 1 then segs[0] else segs[0] + "\n" + Join(segs[1..])
  }

  /** The non-empty segments, in their original order. */
  function NonBlank(segs: seq<string>): (r: seq<string>)
    ensures |r| <= |segs|
    ensures forall x :: x in r <==> x in segs && x != ""
  {
    if segs == [] then []
    else (if segs[0] == "" then [] else [segs[0]]) + NonBlank(segs[1..])
  }

  /** The text a program prints when it writes each of `ls` followed by a newline. */
  function Terminated(ls: seq<string>): string
  {
    if ls == [] then "" else ls[0] + "\n" + Terminated(ls[1..])
  }

  /** Splitting loses nothing: joining the segments gives the text back. */
  lemma {:induction false} JoinSplit(s: string)
    ensures Join(Split(s)) == s
    decreases |s|
  {
    if s != [] {
      var c, tail := s[0], s[1..];
      var rest := Split(tail);
      JoinSplit(tail);
      assert s == [c] + tail;
      if c == '\n' {
        var segs := [""] + rest;
        assert Split(s) == segs && segs[1..] == rest;
        assert Join(segs) == "" + "\n" + Join(rest);
      } else if |rest| == 1 {
        assert Split(s) == [[c] + rest[0]];
        assert Join(rest) == rest[0];
      } else {
        var segs := [[c] + rest[0]] + rest[1..];
        assert Split(s) == segs && segs[1..] == rest[1..];
        assert Join(segs) == ([c] + rest[0]) + "\n" + Join(rest[1..]);
        assert Join(rest) == rest[0] + "\n" + Join(rest[1..]);
      }
    }
  }

  /** A segment without a newline is split off intact from what follows its newline. */
  lemma {:induction false} SplitLine(l: string, rest: string)
    requires '\n' !in l
    ensures Split(l + "\n" + rest) == [l] + Split(rest)
    decreases |l|
  {
    var s := l + "\n" + rest;
    if l == [] {
      assert s[0] == '\n' && s[1..] == rest;
    } else {
      assert s[0] == l[0] && s[1..] == l[1..] + "\n" + rest;
      SplitLine(l[1..], rest);
      assert [s[0]] + l[1..] == l;
    }
  }

  /** Text without a newline is one segment. */
  lemma {:induction false} SplitSingle(l: string)
    requires '\n' !in l
    ensures Split(l) == [l]
    decreases |l|
  {
    if l != [] {
      SplitSingle(l[1..]);
      assert [l[0]] + l[1..] == l;
    }
  }

  /** Joining segments that hold no newline and splitting again gives the segments back. */
  lemma {:induction false} SplitJoin(segs: seq<string>)
    requires |segs| > 0
    requires forall i :: 0 <= i < |segs| ==> '\n' !in segs[i]
    ensures Split(Join(segs)) == segs
  {
    if |segs| == 1 {
      SplitSingle(segs[0]);
    } else {
      SplitJoin(segs[1..]);
      SplitLine(segs[0], Join(segs[1..]));
      assert [segs[0]] + segs[1..] == segs;
    }
  }

  /** Filtering distributes over concatenation. */
  lemma {:induction false} NonBlankAppend(a: seq<string>, b: seq<string>)
    ensures NonBlank(a + b) == NonBlank(a) + NonBlank(b)
  {
    if a == [] {
      assert a + b == b;
    } else {
      assert (a + b)[0] == a[0] && (a + b)[1..] == a[1..] + b;
      NonBlankAppend(a[1..], b);
    }
  }

  /** Lines each ended by a newline split into those lines and one trailing empty segment. */
  lemma {:induction false} SplitTerminated(ls: seq<string>)
    requires forall i :: 0 <= i < |ls| ==> '\n' !in ls[i]
    ensures Split(Terminated(ls)) == ls + [""]
  {
    if ls != [] {
      SplitTerminated(ls[1..]);
      SplitLine(ls[0], Terminated(ls[1..]));
      assert [ls[0]] + (ls[1..] + [""]) == ls + [""];
    }
  }

  /** Filtering keeps a sequence of non-empty segments as it is. */
  lemma {:induction false} NonBlankKeeps(ls: seq<string>)
    requires forall i :: 0 <= i < |ls| ==> ls[i] != ""
    ensures NonBlank(ls) == ls
  {
    if ls != [] {
      NonBlankKeeps(ls[1..]);
      assert [ls[0]] + ls[1..] == ls;
    }
  }

  /** The segments kept from text made of non-empty newline-terminated lines are
      exactly those lines: the trailing empty segment is dropped. */
  lemma NonBlankOfTerminated(ls: seq<string>)
    requires forall i :: 0 <= i < |ls| ==> ls[i] != "" && '\n' !in ls[i]
    ensures NonBlank(Split(Terminated(ls))) == ls
  {
    SplitTerminated(ls);
    NonBlankAppend(ls, [""]);
    NonBlankKeeps(ls);
  }
}
