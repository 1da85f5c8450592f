/** The grammar of a configuration line (src/remote.cpp), stated over the
    whitespace-separated words of the line, and the line loop's error
    numbering. */
module RemoteLemmas {
  import opened Wrappers
  import opened Remote

  //////////////////////////////////////////////////////////////////////
  // Reference definitions

  /** Every word is a numeral whose value fits an `int`. */
  predicate Numerals(ts: seq<string>) {
    forall i :: 0 <= i < |ts| ==> Numeral(ts[i]) && InRange(NumeralValue(ts[i]))
  }

  function Values(ts: seq<string>): (vs: seq<int>)
    requires Numerals(ts)
    ensures |vs| == |ts|
    ensures forall i :: 0 <= i < |ts| ==> vs[i] == NumeralValue(ts[i])
  {
    seq(|ts|, i requires 0 <= i < |ts| => NumeralValue(ts[i]))
  }

  /** What an index list means: each index is called in turn until the
      first one outside `[0, buttons)`, which rejects the line. */
  function Assign(k: Kind, vs: seq<int>, buttons: int): LineResult
    decreases |vs|
  {
    if vs == [] then LineResult([], None)
    else if 0 <= vs[0] < buttons then
      var r := Assign(k, vs[1..], buttons);
      LineResult([MakeCall(k, vs[0])] + r.calls, r.error)
    else LineResult([], Some(InvalidIndex))
  }

  /** With every index in range, each one is called, in order. */
  lemma {:induction false} AssignAllValid(k: Kind, vs: seq<int>, buttons: int)
    requires forall i :: 0 <= i < |vs| ==> 0 <= vs[i] < buttons
    ensures Assign(k, vs, buttons).error == None
    ensures |Assign(k, vs, buttons).calls| == |vs|
    ensures forall i :: 0 <= i < |vs| ==> Assign(k, vs, buttons).calls[i] == MakeCall(k, vs[i])
    decreases |vs|
  {
    if vs != [] {
      AssignAllValid(k, vs[1..], buttons);
    }
  }

  /** The first out-of-range index rejects the line, and the indices
      before it have already been called. */
  lemma {:induction false} AssignFirstInvalid(k: Kind, vs: seq<int>, buttons: int, j: nat)
    requires j < |vs| && !(0 <= vs[j] < buttons)
    requires forall i :: 0 <= i < j ==> 0 <= vs[i] < buttons
    ensures Assign(k, vs, buttons).error == Some(InvalidIndex)
    ensures |Assign(k, vs, buttons).calls| == j
    ensures forall i :: 0 <= i < j ==> Assign(k, vs, buttons).calls[i] == MakeCall(k, vs[i])
    decreases j
  {
    if j > 0 {
      AssignFirstInvalid(k, vs[1..], buttons, j - 1);
    }
  }

  //////////////////////////////////////////////////////////////////////
  // One line

  /** The index list read from a settled stream whose remaining words are
      all numerals is `Assign` of their values. */
  lemma {:induction false} ParseIndicesTokens(s: Stream, k: Kind, buttons: int)
    requires Settled(s) && Numerals(Tokens(s.rest))
    ensures ParseIndices(s, k, buttons) == Assign(k, Values(Tokens(s.rest)), buttons)
    decreases Measure(s)
  {
    SettledTokens(s);
    if !s.eof {
      var ts := Tokens(s.rest);
      var s1, idx := NumeralStep(s, k, buttons);
      NumeralsTail(ts);
      if 0 <= idx < buttons {
        ParseIndicesTokens(s1, k, buttons);
      }
      AssignCons(k, ts, buttons);
    }
  }

  lemma NumeralsTail(ts: seq<string>)
    requires ts != [] && Numerals(ts)
    ensures Numerals(ts[1..])
  {
    assert forall i :: 0 <= i < |ts[1..]| ==> ts[1..][i] == ts[i + 1];
  }

  /** `Assign` of a list of numerals: the first value, then the rest. */
  lemma AssignCons(k: Kind, ts: seq<string>, buttons: int)
    requires ts != [] && Numerals(ts)
    ensures var v := NumeralValue(ts[0]);
      var r := Assign(k, Values(ts[1..]), buttons);
      Assign(k, Values(ts), buttons) ==
        if 0 <= v < buttons then LineResult([MakeCall(k, v)] + r.calls, r.error)
        else LineResult([], Some(InvalidIndex))
  {
    assert Values(ts)[1..] == Values(ts[1..]);
  }

  /** Reading an in-range numeral at the head of the index list. */
  lemma NumeralStep(s: Stream, k: Kind, buttons: int) returns (s1: Stream, idx: int)
    requires Settled(s) && Tokens(s.rest) != [] && Numeral(Tokens(s.rest)[0])
    requires InRange(NumeralValue(Tokens(s.rest)[0]))
    ensures idx == NumeralValue(Tokens(s.rest)[0])
    ensures Settled(s1) && Tokens(s1.rest) == Tokens(s.rest)[1..] && Measure(s1) < Measure(s)
    ensures 0 <= idx < buttons ==>
      ParseIndices(s, k, buttons) == LineResult([MakeCall(k, idx)] + ParseIndices(s1, k, buttons).calls, ParseIndices(s1, k, buttons).error)
    ensures !(0 <= idx < buttons) ==> ParseIndices(s, k, buttons) == LineResult([], Some(InvalidIndex))
  {
    SettledTokens(s);
    ParseNumToken(s);
    s1, idx := ParseNum(s).0, ParseNum(s).1;
  }

  /** The command word of a line and the stream after it: the first word,
      and the remaining words still to be read. */
  lemma LineStart(line: string, buttons: int) returns (s1: Stream, cmd: string)
    ensures Settled(s1)
    ensures ParseLine(line, buttons) == Command(s1, cmd, buttons)
    ensures Tokens(line) == [] ==> cmd == []
    ensures Tokens(line) != [] ==> cmd == Tokens(line)[0] && Tokens(s1.rest) == Tokens(line)[1..]
  {
    WsSettles(StringStream(line));
    ParseWordToken(Ws(StringStream(line)));
    s1, cmd := ParseWord(Ws(StringStream(line))).0, ParseWord(Ws(StringStream(line))).1;
  }

  /** Blank lines, and lines whose first word starts with `#`, make no
      call and raise no error. */
  lemma LineSkipped(line: string, buttons: int)
    requires Tokens(line) == [] || Tokens(line)[0][0] == '#'
    ensures ParseLine(line, buttons) == LineResult([], None)
  {
    var s1, cmd := LineStart(line, buttons);
  }

  /** A line is rejected as an invalid command exactly when its first word
      is none of the three commands and not a comment. */
  lemma LineInvalidCommand(line: string, buttons: int)
    ensures ParseLine(line, buttons).error == Some(InvalidCommand) <==>
      (&& Tokens(line) != [] && Tokens(line)[0][0] != '#'
       && Tokens(line)[0] != "double-press" && Tokens(line)[0] != "toggle" && Tokens(line)[0] != "group")
    ensures ParseLine(line, buttons).error == Some(InvalidCommand) ==> ParseLine(line, buttons).calls == []
  {
    var s1, cmd := LineStart(line, buttons);
    CommandInvalid(s1, cmd, buttons);
  }

  /** The stream-level form of `LineInvalidCommand`. */
  lemma CommandInvalid(s: Stream, cmd: string, buttons: int)
    requires Valid(s)
    ensures Command(s, cmd, buttons).error == Some(InvalidCommand) <==>
      cmd != [] && cmd[0] != '#' && cmd != "double-press" && cmd != "toggle" && cmd != "group"
  {
    assert InvalidCommand != InvalidIndex && InvalidCommand != MissingEqualSign && InvalidCommand != InvalidGroupId by {
      assert InvalidCommand[8] == 'c';
      assert InvalidIndex[8] == 'b' && MissingEqualSign[0] == 'M' && InvalidGroupId[8] == 'g';
    }
  }

  /** After `double-press` or `toggle`, the line is rejected for a missing
      `=` exactly when the next word does not start with `=`. */
  lemma LineMissingEqualSign(line: string, buttons: int)
    requires Tokens(line) != [] && (Tokens(line)[0] == "double-press" || Tokens(line)[0] == "toggle")
    ensures ParseLine(line, buttons).error == Some(MissingEqualSign) <==>
      |Tokens(line)| == 1 || Tokens(line)[1][0] != '='
  {
    var s1, cmd := LineStart(line, buttons);
    var k := AssignmentRule(s1, cmd, buttons);
    AssignmentMissing(s1, k, buttons);
  }

  /** `double-press` and `toggle` select the assignment rule. */
  lemma AssignmentRule(s: Stream, cmd: string, buttons: int) returns (k: Kind)
    requires Valid(s) && (cmd == "double-press" || cmd == "toggle")
    ensures k == (if cmd == "toggle" then ToggleCmd else DoublePressCmd)
    ensures Command(s, cmd, buttons) == ParseAssignment(s, k, buttons)
  {
    k := if cmd == "toggle" then ToggleCmd else DoublePressCmd;
  }

  /** `group` selects the group rule. */
  lemma GroupRule(s: Stream, cmd: string, buttons: int)
    requires Valid(s) && cmd == "group"
    ensures Command(s, cmd, buttons) == ParseGroup(s, buttons)
  {
  }

  /** On a settled stream, `=` and the index list fail for a missing `=`
      exactly when the next word does not start with `=`. */
  lemma AssignmentMissing(s: Stream, k: Kind, buttons: int)
    requires Settled(s)
    ensures ParseAssignment(s, k, buttons).error == Some(MissingEqualSign) <==>
      Tokens(s.rest) == [] || Tokens(s.rest)[0][0] != '='
  {
    SettledTokens(s);
    var eq, r := AssignmentTail(s, k, buttons);
    if Tokens(s.rest) != [] {
      ParseEqualSignToken(s);
    }
    assert MissingEqualSign != InvalidIndex by {
      assert MissingEqualSign[0] == 'M' && InvalidIndex[0] == 'I';
    }
  }

  /** Reading the `=` word: the index list starts on the words after it. */
  lemma EqualSignStep(s: Stream, k: Kind, buttons: int) returns (s1: Stream)
    requires Settled(s) && Tokens(s.rest) != [] && Tokens(s.rest)[0] == "="
    ensures Settled(s1) && Tokens(s1.rest) == Tokens(s.rest)[1..]
    ensures ParseAssignment(s, k, buttons) == ParseIndices(s1, k, buttons)
  {
    ParseEqualSignToken(s);
    s1 := ParseEqualSign(s).0;
  }

  /** `=` followed by numerals, on a settled stream, means `Assign`. */
  lemma AssignmentTokens(s: Stream, k: Kind, buttons: int)
    requires Settled(s) && Tokens(s.rest) != [] && Tokens(s.rest)[0] == "="
    requires Numerals(Tokens(s.rest)[1..])
    ensures ParseAssignment(s, k, buttons) == Assign(k, Values(Tokens(s.rest)[1..]), buttons)
  {
    var s1 := EqualSignStep(s, k, buttons);
    ParseIndicesTokens(s1, k, buttons);
  }

  /** `double-press = i j ...` and `toggle = i j ...` with numeric indices
      mean `Assign` of those indices. */
  lemma LineAccepted(line: string, buttons: int)
    requires |Tokens(line)| >= 2 && Tokens(line)[1] == "="
    requires Tokens(line)[0] == "double-press" || Tokens(line)[0] == "toggle"
    requires Numerals(Tokens(line)[2..])
    ensures ParseLine(line, buttons) ==
      Assign(if Tokens(line)[0] == "toggle" then ToggleCmd else DoublePressCmd, Values(Tokens(line)[2..]), buttons)
  {
    var s1, cmd := LineStart(line, buttons);
    var k := AssignmentRule(s1, cmd, buttons);
    assert Tokens(s1.rest)[1..] == Tokens(line)[2..];
    AssignmentTokens(s1, k, buttons);
  }

  /** `double-press =` or `toggle =` with nothing after the sign is
      accepted and makes no call. */
  lemma LineEmptyAssignment(line: string, buttons: int)
    requires |Tokens(line)| == 2 && Tokens(line)[1] == "="
    requires Tokens(line)[0] == "double-press" || Tokens(line)[0] == "toggle"
    ensures ParseLine(line, buttons) == LineResult([], None)
  {
    assert Tokens(line)[2..] == [];
    LineAccepted(line, buttons);
  }

  /** Reading a group id in `[0, INT_MAX]`: the assignment starts on the
      words after it. */
  lemma GroupIdStep(s: Stream, buttons: int) returns (s1: Stream, id: int)
    requires Settled(s) && Tokens(s.rest) != []
    requires Numeral(Tokens(s.rest)[0]) && 0 <= NumeralValue(Tokens(s.rest)[0]) <= IntMax
    ensures id == NumeralValue(Tokens(s.rest)[0])
    ensures Settled(s1) && Tokens(s1.rest) == Tokens(s.rest)[1..]
    ensures ParseGroup(s, buttons) == ParseAssignment(s1, GroupCmd(id), buttons)
  {
    ParseNumToken(s);
    s1, id := ParseNum(s).0, ParseNum(s).1;
  }

  /** The rest of a `group` line with a valid id, `=` and numerals. */
  lemma GroupTokens(s: Stream, buttons: int)
    requires Settled(s) && |Tokens(s.rest)| >= 2 && Tokens(s.rest)[1] == "="
    requires Numeral(Tokens(s.rest)[0]) && 0 <= NumeralValue(Tokens(s.rest)[0]) <= IntMax
    requires Numerals(Tokens(s.rest)[2..])
    ensures ParseGroup(s, buttons) ==
      Assign(GroupCmd(NumeralValue(Tokens(s.rest)[0])), Values(Tokens(s.rest)[2..]), buttons)
  {
    var s1, id := GroupIdStep(s, buttons);
    assert Tokens(s1.rest)[1..] == Tokens(s.rest)[2..];
    AssignmentTokens(s1, GroupCmd(id), buttons);
  }

  /** `group n = i j ...` with an id in `[0, INT_MAX]` and numeric indices
      means `Assign` of those indices to group `n`. */
  lemma LineGroupAccepted(line: string, buttons: int)
    requires |Tokens(line)| >= 3 && Tokens(line)[0] == "group" && Tokens(line)[2] == "="
    requires Numeral(Tokens(line)[1]) && 0 <= NumeralValue(Tokens(line)[1]) <= IntMax
    requires Numerals(Tokens(line)[3..])
    ensures ParseLine(line, buttons) ==
      Assign(GroupCmd(NumeralValue(Tokens(line)[1])), Values(Tokens(line)[3..]), buttons)
  {
    var s1, cmd := LineStart(line, buttons);
    GroupRule(s1, cmd, buttons);
    assert Tokens(s1.rest)[2..] == Tokens(line)[3..];
    GroupTokens(s1, buttons);
  }

  /** `group` followed by nothing, or by a negative number, is an invalid
      group id. */
  lemma LineGroupInvalidId(line: string, buttons: int)
    requires Tokens(line) != [] && Tokens(line)[0] == "group"
    requires |Tokens(line)| == 1 || (Numeral(Tokens(line)[1]) && NumeralValue(Tokens(line)[1]) < 0)
    ensures ParseLine(line, buttons) == LineResult([], Some(InvalidGroupId))
  {
    var s1, cmd := LineStart(line, buttons);
    GroupRule(s1, cmd, buttons);
    GroupInvalidId(s1, buttons);
  }

  /** The stream-level form of `LineGroupInvalidId`. */
  lemma GroupInvalidId(s: Stream, buttons: int)
    requires Settled(s)
    requires Tokens(s.rest) == [] || (Numeral(Tokens(s.rest)[0]) && NumeralValue(Tokens(s.rest)[0]) < 0)
    ensures ParseGroup(s, buttons) == LineResult([], Some(InvalidGroupId))
  {
    if Tokens(s.rest) == [] {
      ParseNumNone(s);
    } else {
      ParseNumToken(s);
    }
  }

  /** `group` followed by a word that does not begin a number (`=` among
      them) stores id 0 and fails the stream, so the next check reports a
      missing `=` rather than an invalid group id. */
  lemma LineGroupNotANumber(line: string, buttons: int)
    requires |Tokens(line)| >= 2 && Tokens(line)[0] == "group"
    requires var w := Tokens(line)[1];
      !IsDigit(w[0]) && !(|w| >= 2 && (w[0] == '-' || w[0] == '+') && IsDigit(w[1]))
    ensures ParseLine(line, buttons) == LineResult([], Some(MissingEqualSign))
  {
    var s1, cmd := LineStart(line, buttons);
    GroupRule(s1, cmd, buttons);
    GroupNotANumber(s1, buttons);
  }

  /** The stream-level form of `LineGroupNotANumber`. */
  lemma GroupNotANumber(s: Stream, buttons: int)
    requires Settled(s) && Tokens(s.rest) != []
    requires var w := Tokens(s.rest)[0];
      !IsDigit(w[0]) && !(|w| >= 2 && (w[0] == '-' || w[0] == '+') && IsDigit(w[1]))
    ensures ParseGroup(s, buttons) == LineResult([], Some(MissingEqualSign))
  {
    ParseNumNoDigit(s);
    var (s1, id) := ParseNum(s);
    assert !ParseEqualSign(s1).1;
    assert ParseGroup(s, buttons) == ParseAssignment(s1, GroupCmd(0), buttons);
  }

  /** A line calls only the command its first word names: `double-press`
      calls `set_double_press` only, `toggle` calls `set_toggle` only,
      `group` calls `set_group` only, all with one id in `[0, INT_MAX]`
      (the value of a numeric second word), and any other line calls
      nothing. */
  lemma LineCallKinds(line: string, buttons: int)
    ensures var r := ParseLine(line, buttons); var ts := Tokens(line);
      && (ts == [] || (ts[0] != "double-press" && ts[0] != "toggle" && ts[0] != "group") ==> r.calls == [])
      && (ts != [] && ts[0] == "double-press" ==> CallsOf(r.calls, DoublePressCmd))
      && (ts != [] && ts[0] == "toggle" ==> CallsOf(r.calls, ToggleCmd))
      && (ts != [] && ts[0] == "group" ==> exists id :: 0 <= id <= IntMax && CallsOf(r.calls, GroupCmd(id)))
      && (|ts| >= 2 && ts[0] == "group" && Numeral(ts[1]) ==>
            CallsOf(r.calls, GroupCmd(Clamp(NumeralValue(ts[1])))))
  {
    var s1, cmd := LineStart(line, buttons);
    if cmd == "double-press" || cmd == "toggle" {
      var k := AssignmentRule(s1, cmd, buttons);
      var eq, r := AssignmentTail(s1, k, buttons);
    } else if cmd == "group" {
      GroupRule(s1, cmd, buttons);
      var (s2, id) := ParseNum(s1);
      if id >= 0 {
        var eq, r := AssignmentTail(s2, GroupCmd(id), buttons);
        assert CallsOf(ParseLine(line, buttons).calls, GroupCmd(id));
      } else {
        assert CallsOf(ParseLine(line, buttons).calls, GroupCmd(0));
      }
      if Tokens(s1.rest) != [] && Numeral(Tokens(s1.rest)[0]) {
        ParseNumToken(s1);
      }
    }
  }

  //////////////////////////////////////////////////////////////////////
  // The line loop

  /** The result of every line, whether or not the loop reaches it. */
  function Results(lines: seq<string>, buttons: int): (rs: seq<LineResult>)
    ensures |rs| == |lines|
    ensures forall i :: 0 <= i < |lines| ==> rs[i] == ParseLine(lines[i], buttons)
  {
    seq(|lines|, i requires 0 <= i < |lines| => ParseLine(lines[i], buttons))
  }

  /** The calls of every result, in order. */
  function Flatten(rs: seq<LineResult>): seq<Call>
    decreases |rs|
  {
    if rs == [] then [] else rs[0].calls + Flatten(rs[1..])
  }

  /** The calls of every line, ignoring errors. */
  function AllCalls(lines: seq<string>, buttons: int): seq<Call> {
    Flatten(Results(lines, buttons))
  }

  /** The line loop over line results already computed, numbering from
      `n`: a reference for `ConfLines` that leaves parsing out. */
  function Outcome(rs: seq<LineResult>, n: int): ConfOutcome
    decreases |rs|
  {
    if rs == [] then ConfOutcome([], None)
    else if rs[0].error.Some? then ConfOutcome(rs[0].calls, Some(InvalidLine(n, rs[0].error.value)))
    else
      var rest := Outcome(rs[1..], n + 1);
      ConfOutcome(rs[0].calls + rest.calls, rest.error)
  }

  /** The line loop is the loop over the lines' results. */
  lemma {:induction false} ConfLinesOutcome(lines: seq<string>, n: int, buttons: int)
    ensures ConfLines(lines, n, buttons) == Outcome(Results(lines, buttons), n)
    decreases |lines|
  {
    if lines != [] {
      ConfLinesOutcome(lines[1..], n + 1, buttons);
      ResultsTail(lines, buttons);
    }
  }

  lemma ResultsTail(lines: seq<string>, buttons: int)
    requires lines != []
    ensures Results(lines, buttons)[1..] == Results(lines[1..], buttons)
  {
  }

  lemma {:induction false} OutcomeClean(rs: seq<LineResult>, n: int)
    requires forall i :: 0 <= i < |rs| ==> rs[i].error == None
    ensures Outcome(rs, n) == ConfOutcome(Flatten(rs), None)
    decreases |rs|
  {
    if rs != [] {
      OutcomeClean(rs[1..], n + 1);
    }
  }

  lemma {:induction false} OutcomeFirstError(rs: seq<LineResult>, n: int, j: nat)
    requires j < |rs| && rs[j].error.Some?
    requires forall i :: 0 <= i < j ==> rs[i].error == None
    ensures Outcome(rs, n) == ConfOutcome(Flatten(rs[..j]) + rs[j].calls, Some(InvalidLine(n + j, rs[j].error.value)))
    decreases j
  {
    if j == 0 {
      assert rs[..0] == [];
    } else {
      OutcomeFirstError(rs[1..], n + 1, j - 1);
      assert rs[..j][1..] == rs[1..][..j - 1];
      var x := Flatten(rs[1..][..j - 1]);
      assert rs[0].calls + (x + rs[j].calls) == (rs[0].calls + x) + rs[j].calls;
    }
  }

  /** A file whose lines are all accepted makes the calls of every line,
      in order, and reports no error. */
  lemma ConfLinesClean(lines: seq<string>, n: int, buttons: int)
    requires forall i :: 0 <= i < |lines| ==> ParseLine(lines[i], buttons).error == None
    ensures ConfLines(lines, n, buttons) == ConfOutcome(AllCalls(lines, buttons), None)
  {
    ConfLinesOutcome(lines, n, buttons);
    OutcomeClean(Results(lines, buttons), n);
  }

  /** The first rejected line stops the file: its number (counting the
      first line as `n`) and message are reported, and the calls of the
      lines before it, and its own calls before the failing index, stay
      made. */
  lemma ConfLinesFirstError(lines: seq<string>, n: int, buttons: int, j: nat)
    requires j < |lines| && ParseLine(lines[j], buttons).error.Some?
    requires forall i :: 0 <= i < j ==> ParseLine(lines[i], buttons).error == None
    ensures ConfLines(lines, n, buttons) ==
      ConfOutcome(AllCalls(lines[..j], buttons) + ParseLine(lines[j], buttons).calls,
                  Some(InvalidLine(n + j, ParseLine(lines[j], buttons).error.value)))
  {
    var rs := Results(lines, buttons);
    ConfLinesOutcome(lines, n, buttons);
    OutcomeFirstError(rs, n, j);
    ResultsPrefix(lines, j, buttons);
  }

  lemma ResultsPrefix(lines: seq<string>, j: nat, buttons: int)
    requires j <= |lines|
    ensures Results(lines[..j], buttons) == Results(lines, buttons)[..j]
  {
  }

  /** Lines are numbered from 1: an error names the 1-based number of the
      first line that was rejected. */
  lemma ConfFromErrorLine(text: string, buttons: int, j: nat)
    requires j < |GetLines(text)| && ParseLine(GetLines(text)[j], buttons).error.Some?
    requires forall i :: 0 <= i < j ==> ParseLine(GetLines(text)[i], buttons).error == None
    ensures ConfFrom(Some(text), buttons).error ==
      Some(InvalidLine(j + 1, ParseLine(GetLines(text)[j], buttons).error.value))
    ensures ConfFrom(Some(text), buttons).calls ==
      AllCalls(GetLines(text)[..j], buttons) + ParseLine(GetLines(text)[j], buttons).calls
  {
    ConfLinesFirstError(GetLines(text), 1, buttons, j);
  }

  //////////////////////////////////////////////////////////////////////
  // Lines of a file

  /** Each line followed by a newline. */
  function Unlines(ls: seq<string>): string
    decreases |ls|
  {
    if ls == [] then "" else ls[0] + "\n" + Unlines(ls[1..])
  }

  /** Reading back lines written one per line gives the same lines. */
  lemma {:induction false} GetLinesUnlines(ls: seq<string>)
    requires forall i :: 0 <= i < |ls| ==> NoNewline(ls[i])
    ensures GetLines(Unlines(ls)) == ls
    decreases |ls|
  {
    if ls != [] {
      GetLinesSplit(ls[0], Unlines(ls[1..]));
      GetLinesUnlines(ls[1..]);
    }
  }

  /** A line without a newline, a newline, then more text: `std::getline`
      returns the line, then the lines of the rest. */
  lemma GetLinesSplit(l: string, u: string)
    requires NoNewline(l)
    ensures GetLines(l + "\n" + u) == [l] + GetLines(u)
  {
    var t := l + "\n" + u;
    assert t[|l|] == '\n';
    assert forall i :: 0 <= i < |l| ==> t[i] == l[i];
    LineEndExact(t, |l|);
    assert t[..|l|] == l;
    assert t[|l| + 1..] == u;
  }

  lemma {:induction false} LineEndExact(t: string, k: nat)
    requires k <= |t| && (forall i :: 0 <= i < k ==> t[i] != '\n') && (k < |t| ==> t[k] == '\n')
    ensures LineEnd(t) == k
    decreases k
  {
    if k > 0 {
      LineEndExact(t[1..], k - 1);
    }
  }

  /** Writing back the lines read gives the text, with a newline added
      when the text did not end with one. */
  lemma {:induction false} UnlinesGetLines(t: string)
    ensures Unlines(GetLines(t)) == if t == [] || t[|t| - 1] == '\n' then t else t + "\n"
    decreases |t|
  {
    if t != [] {
      var k := LineEnd(t);
      if k < |t| {
        var l, u := FirstLine(t);
        UnlinesGetLines(u);
        UnlinesCons(l, GetLines(u));
        NewlineJoin(l, u);
      } else {
        LastLine(t);
      }
    }
  }

  /** A text with a newline: the line before it, then the text after it. */
  lemma FirstLine(t: string) returns (l: string, u: string)
    requires LineEnd(t) < |t|
    ensures GetLines(t) == [l] + GetLines(u)
    ensures t == l + "\n" + u
    ensures |u| < |t|
  {
    var k := LineEnd(t);
    l, u := t[..k], t[k + 1..];
    assert t == l + "\n" + u;
  }

  /** How `l + "\n" + u` ends is how `u` ends, unless `u` is empty. */
  lemma NewlineJoin(l: string, u: string)
    ensures var t := l + "\n" + u;
      && (t[|t| - 1] == '\n' <==> u == [] || u[|u| - 1] == '\n')
      && (u == [] ==> l + "\n" + u == l + "\n")
      && l + "\n" + (u + "\n") == t + "\n"
  {
  }

  lemma UnlinesCons(l: string, ls: seq<string>)
    ensures Unlines([l] + ls) == l + "\n" + Unlines(ls)
  {
    assert ([l] + ls)[1..] == ls;
  }

  /** A non-empty text with no newline is one line. */
  lemma LastLine(t: string)
    requires t != [] && LineEnd(t) == |t|
    ensures Unlines(GetLines(t)) == t + "\n"
    ensures t[|t| - 1] != '\n'
  {
    assert GetLines(t) == [t];
    UnlinesCons(t, []);
  }

  //////////////////////////////////////////////////////////////////////
  // Writing a line the parser accepts

  /** A non-empty word with no whitespace. */
  predicate Word(w: string) {
    w != [] && forall i :: 0 <= i < |w| ==> !IsSpace(w[i])
  }

  /** Each word followed by one space. */
  function JoinWords(ws: seq<string>): string
    decreases |ws|
  {
    if ws == [] then "" else ws[0] + " " + JoinWords(ws[1..])
  }

  /** Splitting joined words gives the words back. */
  lemma {:induction false} TokensJoinWords(ws: seq<string>)
    requires forall i :: 0 <= i < |ws| ==> Word(ws[i])
    ensures Tokens(JoinWords(ws)) == ws
    decreases |ws|
  {
    if ws == [] {
      assert Run("", Blank) == 0;
    } else {
      TokensJoinWords(ws[1..]);
      JoinWordsStep(ws[0], ws[1..]);
      assert ws == [ws[0]] + ws[1..];
    }
  }

  lemma JoinWordsStep(w: string, ws: seq<string>)
    requires Word(w)
    ensures Tokens(JoinWords([w] + ws)) == [w] + Tokens(JoinWords(ws))
  {
    var j := JoinWords(ws);
    var t := JoinWords([w] + ws);
    assert ([w] + ws)[1..] == ws;
    assert t == w + (" " + j);
    WordThenSpace(w, j);
    TokensHead(t);
    TokensSpace(" " + j);
    assert (" " + j)[1..] == j;
  }

  /** A word followed by a space and any text: the word is the first run
      of non-space characters. */
  lemma WordThenSpace(w: string, j: string)
    requires Word(w)
    ensures var t := w + (" " + j);
      && t[0] == w[0] && Run(t, Graphic) == |w|
      && t[..|w|] == w && t[|w|..] == " " + j
  {
    var t := w + (" " + j);
    assert forall i :: 0 <= i < |w| ==> t[i] == w[i];
    assert t[|w|] == ' ';
    RunExact(t, Graphic, |w|);
  }

  /** A leading whitespace character separates no word. */
  lemma TokensSpace(t: string)
    requires t != [] && IsSpace(t[0])
    ensures Tokens(t) == Tokens(t[1..])
  {
    var v := t[1..];
    assert Run(t, Blank) == 1 + Run(v, Blank);
    assert t[Run(t, Blank)..] == v[Run(v, Blank)..];
    TokensSkip(t);
    TokensSkip(v);
  }

  function Keyword(k: Kind): string {
    match k
    case DoublePressCmd => "double-press"
    case ToggleCmd => "toggle"
    case GroupCmd(_) => "group"
  }

  function Spell(vs: seq<nat>): (ws: seq<string>)
    ensures |ws| == |vs|
    ensures forall i :: 0 <= i < |vs| ==> ws[i] == NatToString(vs[i])
  {
    seq(|vs|, i requires 0 <= i < |vs| => NatToString(vs[i]))
  }

  /** The words of the line `cmd [id] = i j ...`. */
  function RenderWords(k: Kind, vs: seq<nat>): seq<string>
    requires k.GroupCmd? ==> k.id >= 0
  {
    [Keyword(k)] + (if k.GroupCmd? then [NatToString(k.id)] else []) + ["="] + Spell(vs)
  }

  /** A configuration line for command `k` and indices `vs`. */
  function Render(k: Kind, vs: seq<nat>): string
    requires k.GroupCmd? ==> k.id >= 0
  {
    JoinWords(RenderWords(k, vs))
  }

  lemma SpellNumerals(vs: seq<nat>)
    requires forall i :: 0 <= i < |vs| ==> vs[i] <= IntMax
    ensures Numerals(Spell(vs))
    ensures Values(Spell(vs)) == vs
  {
    forall i | 0 <= i < |vs|
      ensures Numeral(Spell(vs)[i]) && NumeralValue(Spell(vs)[i]) == vs[i]
    {
      NatToStringNumeral(vs[i]);
    }
  }

  lemma RenderWordsAreWords(k: Kind, vs: seq<nat>)
    requires k.GroupCmd? ==> k.id >= 0
    ensures forall i :: 0 <= i < |RenderWords(k, vs)| ==> Word(RenderWords(k, vs)[i])
  {
    var ws := RenderWords(k, vs);
    var head := [Keyword(k)] + (if k.GroupCmd? then [NatToString(k.id)] else []) + ["="];
    assert ws == head + Spell(vs);
    KeywordIsWord(k);
    assert Word("=");
    if k.GroupCmd? {
      NumberIsWord(k.id);
    }
    forall i | 0 <= i < |ws|
      ensures Word(ws[i])
    {
      if i >= |head| {
        NumberIsWord(vs[i - |head|]);
      }
    }
  }

  lemma KeywordIsWord(k: Kind)
    ensures Word(Keyword(k))
  {
    var w := Keyword(k);
    assert forall i :: 0 <= i < |w| ==> w[i] in "double-presstoggleg";
  }

  /** A spelled number is a word. */
  lemma NumberIsWord(n: nat)
    ensures Word(NatToString(n))
  {
    var d := NatToString(n);
    assert forall j :: 0 <= j < |d| ==> IsDigit(d[j]);
  }

  /** Parsing a rendered line gives `Assign` of the rendered indices: a
      round trip through the text form of a configuration line. */
  lemma RenderRoundTrip(k: Kind, vs: seq<nat>, buttons: int)
    requires k.GroupCmd? ==> 0 <= k.id <= IntMax
    requires forall i :: 0 <= i < |vs| ==> vs[i] <= IntMax
    ensures ParseLine(Render(k, vs), buttons) == Assign(k, vs, buttons)
  {
    RenderTokens(k, vs);
    if k.GroupCmd? {
      LineGroupAccepted(Render(k, vs), buttons);
    } else {
      LineAccepted(Render(k, vs), buttons);
    }
  }

  /** The words of a rendered line, as the line parser sees them. */
  lemma RenderTokens(k: Kind, vs: seq<nat>)
    requires k.GroupCmd? ==> 0 <= k.id <= IntMax
    requires forall i :: 0 <= i < |vs| ==> vs[i] <= IntMax
    ensures var ts := Tokens(Render(k, vs));
      k.GroupCmd? ==>
        && |ts| >= 3 && ts[0] == "group" && ts[2] == "="
        && Numeral(ts[1]) && NumeralValue(ts[1]) == k.id
        && Numerals(ts[3..]) && Values(ts[3..]) == vs
    ensures var ts := Tokens(Render(k, vs));
      !k.GroupCmd? ==>
        && |ts| >= 2 && ts[1] == "=" && (ts[0] == "double-press" || ts[0] == "toggle")
        && k == (if ts[0] == "toggle" then ToggleCmd else DoublePressCmd)
        && Numerals(ts[2..]) && Values(ts[2..]) == vs
  {
    RenderWordsAreWords(k, vs);
    TokensJoinWords(RenderWords(k, vs));
    RenderWordsShape(k, vs);
  }

  /** The rendered words: keyword, group id, `=`, then the indices. */
  lemma RenderWordsShape(k: Kind, vs: seq<nat>)
    requires k.GroupCmd? ==> 0 <= k.id <= IntMax
    requires forall i :: 0 <= i < |vs| ==> vs[i] <= IntMax
    ensures var ts := RenderWords(k, vs);
      k.GroupCmd? ==>
        && |ts| >= 3 && ts[0] == "group" && ts[2] == "="
        && Numeral(ts[1]) && NumeralValue(ts[1]) == k.id
        && Numerals(ts[3..]) && Values(ts[3..]) == vs
    ensures var ts := RenderWords(k, vs);
      !k.GroupCmd? ==>
        && |ts| >= 2 && ts[1] == "=" && (ts[0] == "double-press" || ts[0] == "toggle")
        && k == (if ts[0] == "toggle" then ToggleCmd else DoublePressCmd)
        && Numerals(ts[2..]) && Values(ts[2..]) == vs
  {
    var ws := RenderWords(k, vs);
    SpellNumerals(vs);
    if k.GroupCmd? {
      assert ws[3..] == Spell(vs);
      NatToStringNumeral(k.id);
    } else {
      assert ws[2..] == Spell(vs);
      assert "double-press" != "toggle" by {
        assert "double-press"[0] != "toggle"[0];
      }
    }
  }

  /** A file written from directives whose indices are all in range makes
      every call of every directive, in order, with no error. */
  lemma RenderedFile(ks: seq<Kind>, vss: seq<seq<nat>>, buttons: int)
    requires |ks| == |vss|
    requires forall i :: 0 <= i < |ks| ==> ks[i].GroupCmd? ==> 0 <= ks[i].id <= IntMax
    requires forall i, j :: 0 <= i < |vss| && 0 <= j < |vss[i]| ==> vss[i][j] < buttons && vss[i][j] <= IntMax
    ensures var lines := seq(|ks|, i requires 0 <= i < |ks| => Render(ks[i], vss[i]));
      ConfFrom(Some(Unlines(lines)), buttons) == ConfOutcome(AllCalls(lines, buttons), None)
  {
    var lines := seq(|ks|, i requires 0 <= i < |ks| => Render(ks[i], vss[i]));
    forall i | 0 <= i < |lines|
      ensures NoNewline(lines[i]) && ParseLine(lines[i], buttons).error == None
    {
      RenderRoundTrip(ks[i], vss[i], buttons);
      AssignAllValid(ks[i], vss[i], buttons);
      RenderNoNewline(ks[i], vss[i]);
    }
    GetLinesUnlines(lines);
    ConfLinesClean(lines, 1, buttons);
  }

  lemma RenderNoNewline(k: Kind, vs: seq<nat>)
    requires k.GroupCmd? ==> k.id >= 0
    ensures NoNewline(Render(k, vs))
  {
    RenderWordsAreWords(k, vs);
    JoinWordsNoNewline(RenderWords(k, vs));
  }

  lemma {:induction false} JoinWordsNoNewline(ws: seq<string>)
    requires forall i :: 0 <= i < |ws| ==> Word(ws[i])
    ensures NoNewline(JoinWords(ws))
    decreases |ws|
  {
    if ws != [] {
      JoinWordsNoNewline(ws[1..]);
      assert JoinWords(ws) == ws[0] + " " + JoinWords(ws[1..]);
    }
  }

  /** A file that cannot be opened makes no call. */
  lemma CantOpenFirst(buttons: int)
    ensures ConfFrom(None, buttons).calls == []
    ensures ConfFrom(None, buttons).error == Some(CantOpen)
  {
  }
}
