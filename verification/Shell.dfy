/** The shell's command line: splitting a line into the arguments of a request. */
module Shell {

  const CMD_NARGS := 16
  const CMD_ARG_LEN := 32

  /** The words of a line that have ended, and the one that has not. */
  datatype Split = Split(done: seq<string>, cur: string)

  function SplitLine(line: string): (s: Split) {
    if line == "" then Split([], "")
    else
      var s := SplitLine(line[..|line| - 1]);
      var c := line[|line| - 1];
      if c != ' ' then s.(cur := s.cur + [c])
      else if s.cur != "" then Split(s.done + [s.cur], "")
      else s
  }

  /** The space-separated words of a line. */
  function Words(line: string): (ws: seq<string>) {
    var s := SplitLine(line);
    if s.cur == "" then s.done else s.done + [s.cur]
  }

  // ----- the laws of words

  lemma {:induction false} SplitWord(w: string)
    requires ' ' !in w
    ensures SplitLine(w) == Split([], w)
  {
    if w != "" {
      var n := |w| - 1;
      SplitWord(w[..n]);
      assert w[n] in w && w == w[..n] + [w[n]];
    }
  }

  /** The empty line has no words; a line without spaces is one word. */
  lemma {:induction false} WordsOfWord(w: string)
    requires ' ' !in w
    ensures Words(w) == if w == "" then [] else [w]
  {
    SplitWord(w);
  }

  lemma {:induction false} SplitAtSpace(a: string, b: string)
    ensures SplitLine(a + " " + b) == Split(Words(a) + SplitLine(b).done, SplitLine(b).cur)
  {
    var line := a + " " + b;
    if b == "" {
      assert line[..|line| - 1] == a;
    } else {
      var n := |b| - 1;
      assert line[..|line| - 1] == a + " " + b[..n];
      SplitAtSpace(a, b[..n]);
    }
  }

  /** A space separates: the words of a line are those before it and those after it. */
  lemma {:induction false} WordsAtSpace(a: string, b: string)
    ensures Words(a + " " + b) == Words(a) + Words(b)
  {
    SplitAtSpace(a, b);
  }

  // ----- which lines are accepted

  predicate Short(ws: seq<string>) {
    forall w :: w in ws ==> |w| < CMD_ARG_LEN
  }

  predicate EndsInSpace(line: string) {
    line != "" && line[|line| - 1] == ' '
  }

  /** Every word fits, and there are at most fifteen of them, or sixteen with nothing
      after the last. */
  predicate Accepted(line: string) {
    && Short(Words(line))
    && (|Words(line)| < CMD_NARGS || (|Words(line)| == CMD_NARGS && !EndsInSpace(line)))
  }

  /** What one more character does to a line that has become too long. */
  predicate TooLong(s: Split) {
    |s.done| >= CMD_NARGS || |s.cur| >= CMD_ARG_LEN || !Short(s.done)
  }

  lemma {:induction false} StaysTooLong(line: string, n: nat)
    requires n <= |line| && TooLong(SplitLine(line[..n]))
    ensures TooLong(SplitLine(line))
  {
    if n == |line| {
      assert line[..n] == line;
    } else {
      var m := |line| - 1;
      assert line[..m][..n] == line[..n];
      StaysTooLong(line[..m], n);
      var s := SplitLine(line[..m]);
      if !Short(s.done) {
        var w :| w in s.done && |w| >= CMD_ARG_LEN;
        assert w in SplitLine(line).done;
      } else if |s.cur| >= CMD_ARG_LEN && line[m] == ' ' {
        assert s.cur in SplitLine(line).done;
      }
    }
  }

  /** A line is refused exactly when its splitting becomes too long. */
  lemma {:induction false} AcceptedUnlessTooLong(line: string)
    ensures Accepted(line) <==> !TooLong(SplitLine(line))
  {
  }

  // ----- the request

  /** Row `k` of the argument table holds a word and, after it, zeros. */
  ghost predicate Holds(argv: array2<char>, k: nat, w: string)
    requires argv.Length0 == CMD_NARGS && argv.Length1 == CMD_ARG_LEN && k < CMD_NARGS
    reads argv
  {
    |w| < CMD_ARG_LEN && forall j :: 0 <= j < CMD_ARG_LEN ==> argv[k, j] == if j < |w| then w[j] else '\0'
  }

  /** The word that belongs in row `k` part way through a line. */
  function Row(s: Split, k: nat): (w: string) {
    if k < |s.done| then s.done[k] else if k == |s.done| then s.cur else ""
  }

  ghost predicate Rows(argv: array2<char>, s: Split)
    requires argv.Length0 == CMD_NARGS && argv.Length1 == CMD_ARG_LEN
    reads argv
  {
    forall k :: 0 <= k < CMD_NARGS ==> Holds(argv, k, Row(s, k))
  }

  /** A character is added to the word that has not ended. */
  method AddChar(argv: array2<char>, nargs: nat, idx: nat, c: char, ghost s: Split)
    requires argv.Length0 == CMD_NARGS && argv.Length1 == CMD_ARG_LEN
    requires Rows(argv, s) && nargs == |s.done| < CMD_NARGS && idx == |s.cur| < CMD_ARG_LEN
    modifies argv
    ensures idx + 1 < CMD_ARG_LEN ==> Rows(argv, s.(cur := s.cur + [c]))
  {
    argv[nargs, idx] := c;
    forall k | 0 <= k < CMD_NARGS && idx + 1 < CMD_ARG_LEN
      ensures Holds(argv, k, Row(s.(cur := s.cur + [c]), k))
    {
      assert old(Holds(argv, k, Row(s, k)));
    }
  }

  /** The word ends. */
  method EndWord(argv: array2<char>, nargs: nat, idx: nat, ghost s: Split)
    requires argv.Length0 == CMD_NARGS && argv.Length1 == CMD_ARG_LEN
    requires Rows(argv, s) && nargs == |s.done| < CMD_NARGS && idx == |s.cur| < CMD_ARG_LEN
    modifies argv
    ensures Rows(argv, Split(s.done + [s.cur], ""))
  {
    assert Holds(argv, nargs, Row(s, nargs));
    argv[nargs, idx] := '\0';
    forall k | 0 <= k < CMD_NARGS
      ensures Holds(argv, k, Row(Split(s.done + [s.cur], ""), k))
    {
      assert old(Holds(argv, k, Row(s, k)));
    }
  }

  /** Splits a line, the characters before its terminating zero, into the rows of the
      argument table. It succeeds exactly on accepted
      lines, and then the rows are the line's words. */
  method ParseRequest(line: string, argv: array2<char>) returns (rc: int, argc: nat)
    requires argv.Length0 == CMD_NARGS && argv.Length1 == CMD_ARG_LEN && '\0' !in line
    modifies argv
    ensures rc == if Accepted(line) then 0 else -1
    ensures rc == 0 ==> argc == |Words(line)| <= CMD_NARGS
    ensures rc == 0 ==> forall k :: 0 <= k < argc ==> Holds(argv, k, Words(line)[k])
  {
    var idx, nargs := 0, 0;
    forall k, j | 0 <= k < CMD_NARGS && 0 <= j < CMD_ARG_LEN {
      argv[k, j] := '\0';
    }
    AcceptedUnlessTooLong(line);
    var i := 0;
    ghost var s := Split([], "");
    while i < |line|
      invariant 0 <= i <= |line| && s == SplitLine(line[..i])
      invariant nargs == |s.done| < CMD_NARGS && idx == |s.cur| < CMD_ARG_LEN
      invariant Short(s.done) && Rows(argv, s)
    {
      assert line[..i + 1][..i] == line[..i];
      if line[i] != ' ' {
        AddChar(argv, nargs, idx, line[i], s);
        idx := idx + 1;
        if idx >= CMD_ARG_LEN {
          StaysTooLong(line, i + 1);
          return -1, 0;
        }
      } else if idx != 0 {
        EndWord(argv, nargs, idx, s);
        idx := 0;
        nargs := nargs + 1;
        if nargs >= CMD_NARGS {
          StaysTooLong(line, i + 1);
          return -1, 0;
        }
      }
      i := i + 1;
      s := SplitLine(line[..i]);
    }
    assert line[..i] == line;
    argc := if idx != 0 then nargs + 1 else nargs;
    assert forall k :: 0 <= k < argc ==> Words(line)[k] == Row(s, k);
    return 0, argc;
  }
}
