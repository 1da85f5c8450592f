/** The configuration-file reader of the remote (src/remote.cpp): each line
    is read through a string stream with the formatted-input rules of the
    C++ standard library, and the accepted commands become calls on the
    configuration store. */
module Remote {
  import opened Wrappers

  /** Range of the C++ `int` the numbers are extracted into. */
  const IntMax: int := 0x7fff_ffff
  const IntMin: int := -0x8000_0000

  /** `isspace` in the "C" locale: space, and tab through carriage return. */
  predicate IsSpace(c: char) {
    c == ' ' || ('\t' <= c <= '\r')
  }

  predicate IsDigit(c: char) {
    '0' <= c <= '9'
  }

  datatype CharClass = Blank | Graphic | Decimal

  predicate In(c: char, k: CharClass) {
    match k
    case Blank => IsSpace(c)
    case Graphic => !IsSpace(c)
    case Decimal => IsDigit(c)
  }

  /** Length of the longest prefix of `t` whose characters are in class `k`. */
  function Run(t: string, k: CharClass): (n: nat)
    ensures n <= |t|
    ensures forall i :: 0 <= i < n ==> In(t[i], k)
    ensures n < |t| ==> !In(t[n], k)
    decreases |t|
  {
    if t != [] && In(t[0], k) then 1 + Run(t[1..], k) else 0
  }

  /** The run length is determined by where the class first fails. */
  lemma {:induction false} RunExact(t: string, k: CharClass, m: nat)
    requires m <= |t|
    requires forall i :: 0 <= i < m ==> In(t[i], k)
    requires m < |t| ==> !In(t[m], k)
    ensures Run(t, k) == m
    decreases m
  {
    if m > 0 {
      assert In(t[0], k);
      RunExact(t[1..], k, m - 1);
    }
  }

  //////////////////////////////////////////////////////////////////////
  // Decimal numerals

  function DigitValue(c: char): nat
    requires IsDigit(c)
  {
    (c as int) - ('0' as int)
  }

  predicate AllDigits(d: string) {
    forall i :: 0 <= i < |d| ==> IsDigit(d[i])
  }

  /** The value of a string of decimal digits, most significant first. */
  function DigitsValue(d: string): nat
    requires AllDigits(d)
    decreases |d|
  {
    if d == [] then 0 else 10 * DigitsValue(d[..|d| - 1]) + DigitValue(d[|d| - 1])
  }

  function DigitChar(v: nat): (c: char)
    requires v < 10
    ensures IsDigit(c) && DigitValue(c) == v
  {
    ('0' as int + v) as char
  }

  /** The shortest decimal spelling of `n`. */
  function NatToString(n: nat): (d: string)
    ensures |d| >= 1 && AllDigits(d)
    ensures DigitsValue(d) == n
    ensures d[0] == '0' <==> n == 0
    decreases n
  {
    if n < 10 then [DigitChar(n)]
    else
      var p := NatToString(n / 10);
      var d := p + [DigitChar(n % 10)];
      assert d[..|d| - 1] == p;
      d
  }

  /** `w` without a leading sign character. */
  function Unsigned(w: string): string {
    if w != [] && (w[0] == '-' || w[0] == '+') then w[1..] else w
  }

  /** A whole token that `operator>>(int&)` reads completely: an optional
      sign followed by at least one decimal digit. */
  predicate Numeral(w: string) {
    |Unsigned(w)| >= 1 && AllDigits(Unsigned(w))
  }

  function NumeralValue(w: string): int
    requires Numeral(w)
  {
    if w[0] == '-' then -(DigitsValue(Unsigned(w)) as int) else DigitsValue(Unsigned(w))
  }

  predicate InRange(v: int) {
    IntMin <= v <= IntMax
  }

  /** The value stored by an out-of-range extraction: the nearest bound. */
  function Clamp(v: int): (r: int)
    ensures InRange(r)
    ensures InRange(v) ==> r == v
    ensures v > IntMax ==> r == IntMax
    ensures v < IntMin ==> r == IntMin
  {
    if v > IntMax then IntMax else if v < IntMin then IntMin else v
  }

  /** Spelling a natural number and reading it back gives the number. */
  lemma NatToStringNumeral(n: nat)
    ensures Numeral(NatToString(n)) && NumeralValue(NatToString(n)) == n
  {
    assert Unsigned(NatToString(n)) == NatToString(n);
  }

  //////////////////////////////////////////////////////////////////////
  // The string stream

  /** The unread part of a string stream together with its `failbit` and
      `eofbit`. */
  datatype Stream = Stream(rest: string, fail: bool, eof: bool)

  predicate Good(s: Stream) {
    !s.fail && !s.eof
  }

  /** The end-of-file flag is only ever set once the text is used up. */
  predicate Valid(s: Stream) {
    s.eof ==> s.rest == []
  }

  /** A bound that every extraction from a good stream lowers. */
  function Measure(s: Stream): nat {
    |s.rest| + (if s.fail then 0 else 1)
  }

  /** `std::stringstream ss{ line }`. */
  function StringStream(line: string): (s: Stream)
    ensures Good(s) && Valid(s)
  {
    Stream(line, false, false)
  }

  /** The sentry of a formatted extraction: a stream that is not good
      gains `failbit`; otherwise leading whitespace is skipped, and running
      out of characters sets `failbit` and `eofbit`. */
  function Sentry(s: Stream): (r: Stream)
    ensures Valid(s) ==> Valid(r)
    ensures |r.rest| <= |s.rest|
  {
    if !Good(s) then s.(fail := true)
    else
      var t := s.rest[Run(s.rest, Blank)..];
      if t == [] then Stream([], true, true) else Stream(t, false, false)
  }

  /** The `std::ws` manipulator: on a good stream, discard whitespace and
      set `eofbit` if that uses up the text; on any other stream, set
      `failbit`. */
  function Ws(s: Stream): (r: Stream)
    ensures Valid(s) ==> Valid(r)
    ensures Good(s) ==> !r.fail && (r.eof <==> r.rest == [])
    ensures !Good(s) ==> r == s.(fail := true)
    ensures Valid(s) ==> Measure(r) <= Measure(s)
  {
    if !Good(s) then s.(fail := true)
    else
      var t := s.rest[Run(s.rest, Blank)..];
      Stream(t, false, t == [])
  }

  /** `operator>>(std::string&)`: the maximal run of non-whitespace
      characters; the string is left empty when the sentry fails. */
  function ExtractWord(s: Stream): (r: (Stream, string))
    ensures Valid(s) ==> Valid(r.0)
  {
    var s1 := Sentry(s);
    if !Good(s1) then (s1, "")
    else
      var n := Run(s1.rest, Graphic);
      var t := s1.rest[n..];
      (Stream(t, false, t == []), s1.rest[..n])
  }

  /** `operator>>(int&)`: an optional sign and the decimal digits after
      it. With no digit the value is 0 and `failbit` is set; a value
      outside `int` is clamped and sets `failbit`; reaching the end of the
      text sets `eofbit`. A failing sentry leaves the variable as it was. */
  function ExtractInt(s: Stream, init: int): (r: (Stream, int))
    ensures Valid(s) ==> Valid(r.0)
    ensures !Good(s) ==> r == (s.(fail := true), init)
    ensures Good(s) ==> Measure(r.0) < Measure(s)
    ensures !r.0.fail ==> InRange(r.1)
  {
    var s1 := Sentry(s);
    if !Good(s1) then (s1, init)
    else
      var neg := s1.rest[0] == '-';
      var u := if neg || s1.rest[0] == '+' then s1.rest[1..] else s1.rest;
      var n := Run(u, Decimal);
      var t := u[n..];
      if n == 0 then (Stream(t, true, t == []), 0)
      else
        var m := DigitsValue(u[..n]);
        var v: int := if neg then -(m as int) else m;
        (Stream(t, !InRange(v), t == []), Clamp(v))
  }

  /** `operator>>(char&)`: the next non-whitespace character; a failing
      sentry leaves the variable as it was. */
  function ExtractChar(s: Stream, init: char): (r: (Stream, char))
    ensures Valid(s) ==> Valid(r.0)
    ensures !Good(s) ==> r == (s.(fail := true), init)
  {
    var s1 := Sentry(s);
    if !Good(s1) then (s1, init)
    else (Stream(s1.rest[1..], false, false), s1.rest[0])
  }

  /** `parse_word`: `ss >> word >> std::ws`. */
  function ParseWord(s: Stream): (r: (Stream, string))
    ensures Valid(s) ==> Valid(r.0)
    ensures forall i :: 0 <= i < |r.1| ==> !IsSpace(r.1[i])
  {
    var (s1, w) := ExtractWord(s);
    (Ws(s1), w)
  }

  /** `parse_num`: `ss >> num >> std::ws` with `num` starting at -1. */
  function ParseNum(s: Stream): (r: (Stream, int))
    ensures Valid(s) ==> Valid(r.0)
    ensures !Good(s) ==> r.1 == -1 && r.0.fail
    ensures Good(s) && Valid(s) ==> Measure(r.0) < Measure(s)
    ensures InRange(r.1) || r.1 == -1
  {
    var (s1, v) := ExtractInt(s, -1);
    (Ws(s1), v)
  }

  /** `parse_equal_sign`: `ss >> c >> std::ws` with `c` starting at the
      null character, then `c == '='`. */
  function ParseEqualSign(s: Stream): (r: (Stream, bool))
    ensures Valid(s) ==> Valid(r.0)
    ensures !Good(s) ==> !r.1 && r.0.fail
  {
    var (s1, c) := ExtractChar(s, '\0');
    (Ws(s1), c == '=')
  }

  //////////////////////////////////////////////////////////////////////
  // The token view of a line

  /** The whitespace-separated words of `t`, in order. */
  function Tokens(t: string): (ts: seq<string>)
    ensures forall i :: 0 <= i < |ts| ==> ts[i] != []
    decreases |t|
  {
    var u := t[Run(t, Blank)..];
    if u == [] then []
    else
      assert !IsSpace(u[0]);
      var n := Run(u, Graphic);
      assert n >= 1;
      [u[..n]] + Tokens(u[n..])
  }

  /** A stream between extractions: whitespace already skipped, `eofbit`
      set exactly when the text is used up, and `failbit` only with it. */
  predicate Settled(s: Stream) {
    && (s.eof <==> s.rest == [])
    && (s.fail ==> s.eof)
    && (s.rest == [] || !IsSpace(s.rest[0]))
  }

  lemma TokensSkip(t: string)
    ensures Tokens(t[Run(t, Blank)..]) == Tokens(t)
  {
    var u := t[Run(t, Blank)..];
    RunExact(u, Blank, 0);
    assert u[0..] == u;
  }

  lemma TokensHead(t: string)
    requires t != [] && !IsSpace(t[0])
    ensures Tokens(t) == [t[..Run(t, Graphic)]] + Tokens(t[Run(t, Graphic)..])
  {
    RunExact(t, Blank, 0);
    assert t[0..] == t;
  }

  lemma SettledTokens(s: Stream)
    requires Settled(s)
    ensures Tokens(s.rest) == [] <==> s.eof
  {
    if s.rest != [] {
      TokensHead(s.rest);
    }
  }

  /** `std::ws` on a good stream settles it and drops no word. */
  lemma WsSettles(s: Stream)
    requires Good(s)
    ensures Settled(Ws(s))
    ensures Tokens(Ws(s).rest) == Tokens(s.rest)
  {
    TokensSkip(s.rest);
  }

  /** After skipping a token of length `n`, what is left is empty or starts
      with whitespace, and skipping that whitespace settles the stream on
      the remaining words. */
  lemma AfterToken(t: string, n: nat)
    requires n <= |t| && (n < |t| ==> IsSpace(t[n]))
    ensures Settled(Ws(Stream(t[n..], false, t[n..] == [])))
    ensures Tokens(Ws(Stream(t[n..], false, t[n..] == [])).rest) == Tokens(t[n..])
  {
    var s := Stream(t[n..], false, t[n..] == []);
    if Good(s) {
      WsSettles(s);
    }
  }

  /** `parse_word` on a settled stream reads the next word, or the empty
      word with `failbit` when there is none. */
  lemma ParseWordToken(s: Stream)
    requires Settled(s)
    ensures var (s1, w) := ParseWord(s);
      && Settled(s1)
      && (Tokens(s.rest) == [] ==> w == [] && s1.fail)
      && (Tokens(s.rest) != [] ==> w == Tokens(s.rest)[0] && Tokens(s1.rest) == Tokens(s.rest)[1..])
  {
    SettledTokens(s);
    if s.rest != [] {
      var t := s.rest;
      TokensHead(t);
      AfterToken(t, Run(t, Graphic));
    }
  }

  /** `parse_num` on a settled stream whose next word is a numeral reads
      that numeral's value (clamped to `int`); an in-range value leaves the
      stream settled on the following words, an out-of-range one fails it. */
  lemma ParseNumToken(s: Stream)
    requires Settled(s) && Tokens(s.rest) != [] && Numeral(Tokens(s.rest)[0])
    ensures var (s1, v) := ParseNum(s);
      && v == Clamp(NumeralValue(Tokens(s.rest)[0]))
      && (InRange(NumeralValue(Tokens(s.rest)[0])) ==> Settled(s1) && Tokens(s1.rest) == Tokens(s.rest)[1..])
      && (!InRange(NumeralValue(Tokens(s.rest)[0])) ==> s1.fail)
  {
    var t := s.rest;
    TokensHead(t);
    var n := Run(t, Graphic);
    var w := t[..n];
    var v := NumeralValue(w);
    ExtractNumeral(t, n);
    if InRange(v) {
      AfterToken(t, n);
    }
  }

  /** `operator>>(int&)` on a good stream that starts with a numeral
      token of length `n` reads exactly that token. */
  lemma ExtractNumeral(t: string, n: nat)
    requires 1 <= n <= |t| && (n < |t| ==> IsSpace(t[n]))
    requires !IsSpace(t[0]) && Numeral(t[..n])
    ensures ExtractInt(Stream(t, false, false), -1)
         == (Stream(t[n..], !InRange(NumeralValue(t[..n])), t[n..] == []), Clamp(NumeralValue(t[..n])))
  {
    var s := Stream(t, false, false);
    var w := t[..n];
    var sg := if t[0] == '-' || t[0] == '+' then 1 else 0;
    var u := t[sg..];
    assert Sentry(s) == s;
    DigitsRun(t, n, sg);
    var m := DigitsValue(u[..n - sg]);
    var v: int := if t[0] == '-' then -(m as int) else m;
    var r := ExtractInt(s, -1);
    assert r.1 == Clamp(v);
    assert r.0 == Stream(u[n - sg..], !InRange(v), u[n - sg..] == []);
  }

  /** The digits of a numeral token of length `n` are the decimal run
      after its sign. */
  lemma DigitsRun(t: string, n: nat, sg: nat)
    requires 1 <= n <= |t| && (n < |t| ==> IsSpace(t[n]))
    requires Numeral(t[..n]) && sg == (if t[0] == '-' || t[0] == '+' then 1 else 0)
    ensures sg < n && Unsigned(t[..n]) == t[sg..][..n - sg]
    ensures Run(t[sg..], Decimal) == n - sg
    ensures t[sg..][n - sg..] == t[n..]
    ensures var m := DigitsValue(t[sg..][..n - sg]);
      NumeralValue(t[..n]) == if t[0] == '-' then -(m as int) else m
  {
    var w := t[..n];
    var u := t[sg..];
    assert w[0] == t[0];
    assert u[n - sg..] == t[n..];
    if sg == 1 {
      assert Unsigned(w) == w[1..] == u[..n - 1];
    } else {
      assert Unsigned(w) == w == u[..n];
    }
    forall i | 0 <= i < n - sg
      ensures In(u[i], Decimal)
    {
      assert u[i] == Unsigned(w)[i];
    }
    if n - sg < |u| {
      assert u[n - sg] == t[n];
    }
    RunExact(u, Decimal, n - sg);
  }

  /** `parse_num` on a stream with no word left gives -1 and fails it. */
  lemma ParseNumNone(s: Stream)
    requires Settled(s) && Tokens(s.rest) == []
    ensures ParseNum(s).1 == -1 && ParseNum(s).0.fail
  {
    SettledTokens(s);
  }

  /** `parse_num` on a word that starts with neither a digit nor a sign
      followed by a digit stores 0 and fails the stream without using the
      word up. */
  lemma ParseNumNoDigit(s: Stream)
    requires Settled(s) && Tokens(s.rest) != []
    requires var w := Tokens(s.rest)[0];
      !IsDigit(w[0]) && !(|w| >= 2 && (w[0] == '-' || w[0] == '+') && IsDigit(w[1]))
    ensures ParseNum(s).1 == 0 && ParseNum(s).0.fail
  {
    var t := s.rest;
    TokensHead(t);
    var sg := if t[0] == '-' || t[0] == '+' then 1 else 0;
    var u := t[sg..];
    if sg == 1 && |t| >= 2 && !IsSpace(t[1]) {
      RunExact(t, Graphic, Run(t, Graphic));
      assert t[..Run(t, Graphic)][1] == t[1];
    }
    RunExact(u, Decimal, 0);
  }

  /** `parse_equal_sign` on a settled stream looks at the first character
      of the next word only; the rest of that word stays to be read. */
  lemma ParseEqualSignToken(s: Stream)
    requires Settled(s) && Tokens(s.rest) != []
    ensures var (s1, ok) := ParseEqualSign(s);
      var w := Tokens(s.rest)[0];
      && Settled(s1)
      && (ok <==> w[0] == '=')
      && Tokens(s1.rest) == (if |w| == 1 then [] else [w[1..]]) + Tokens(s.rest)[1..]
  {
    EqualSignRead(s);
    WsSettles(Stream(s.rest[1..], false, false));
    TokensAfterFirst(s.rest);
  }

  /** Dropping the first character of a text that starts a word shortens
      that word by one, or removes it when it had one character. */
  lemma TokensAfterFirst(t: string)
    requires t != [] && !IsSpace(t[0])
    ensures Tokens(t) != [] && Tokens(t)[0][0] == t[0]
    ensures var w := Tokens(t)[0];
      Tokens(t[1..]) == (if |w| == 1 then [] else [w[1..]]) + Tokens(t)[1..]
  {
    TokensHead(t);
    if Run(t, Graphic) > 1 {
      WordAfterFirst(t);
    } else {
      assert t[1..] == t[Run(t, Graphic)..];
    }
  }

  lemma WordAfterFirst(t: string)
    requires t != [] && Run(t, Graphic) > 1
    ensures var n := Run(t, Graphic);
      Tokens(t[1..]) == [t[..n][1..]] + Tokens(t[n..])
  {
    var v := t[1..];
    var n := Run(t, Graphic);
    RunExact(v, Graphic, n - 1);
    TokensHead(v);
    assert v[..n - 1] == t[..n][1..];
    assert v[n - 1..] == t[n..];
  }

  /** On a settled stream with text left, `parse_equal_sign` takes the
      next character and skips the whitespace after it. */
  lemma EqualSignRead(s: Stream)
    requires Settled(s) && s.rest != []
    ensures ParseEqualSign(s) == (Ws(Stream(s.rest[1..], false, false)), s.rest[0] == '=')
  {
    RunExact(s.rest, Blank, 0);
    assert s.rest[0..] == s.rest;
  }

  //////////////////////////////////////////////////////////////////////
  // conf_from

  /** What the accepted lines ask of the configuration store. */
  datatype Call =
    | SetDoublePress(idx: int)
    | SetToggle(idx: int)
    | SetGroup(idx: int, id: int)

  /** The command of a line, with the group id already read. */
  datatype Kind = DoublePressCmd | ToggleCmd | GroupCmd(id: int)

  function MakeCall(k: Kind, idx: int): (c: Call)
    ensures c.idx == idx
    ensures c.SetGroup? <==> k.GroupCmd?
    ensures k.GroupCmd? ==> c.id == k.id
  {
    match k
    case DoublePressCmd => SetDoublePress(idx)
    case ToggleCmd => SetToggle(idx)
    case GroupCmd(id) => SetGroup(idx, id)
  }

  const InvalidGroupId: string := "Invalid group id"
  const InvalidCommand: string := "Invalid command"
  const MissingEqualSign: string := "Missing '=' sign"
  const InvalidIndex: string := "Invalid button index"

  /** The calls a line made, and the message it was rejected with. */
  datatype LineResult = LineResult(calls: seq<Call>, error: Option<string>)

  /** The index list after `=`: while the stream is not at its end, read
      an index; one inside `[0, buttons)` is called at once, anything else
      rejects the line. */
  function ParseIndices(s: Stream, k: Kind, buttons: int): (r: LineResult)
    requires Valid(s)
    ensures r.error == None || r.error == Some(InvalidIndex)
    decreases Measure(s)
  {
    if s.eof then LineResult([], None)
    else
      var (s1, idx) := ParseNum(s);
      if 0 <= idx < buttons then
        var r := ParseIndices(s1, k, buttons);
        LineResult([MakeCall(k, idx)] + r.calls, r.error)
      else LineResult([], Some(InvalidIndex))
  }

  /** `=` and the index list. */
  function ParseAssignment(s: Stream, k: Kind, buttons: int): (r: LineResult)
    requires Valid(s)
    ensures r.error == None || r.error == Some(InvalidIndex) || r.error == Some(MissingEqualSign)
    ensures r.error == Some(MissingEqualSign) ==> r.calls == []
  {
    var (s1, eq) := ParseEqualSign(s);
    if !eq then LineResult([], Some(MissingEqualSign)) else ParseIndices(s1, k, buttons)
  }

  /** One line of the file: its first word, then the rule that word
      selects. Calls made before an error stay made. */
  function ParseLine(line: string, buttons: int): (r: LineResult)
    ensures r.error == None || r.error == Some(InvalidIndex) || r.error == Some(MissingEqualSign)
         || r.error == Some(InvalidGroupId) || r.error == Some(InvalidCommand)
    ensures r.error != None && r.error != Some(InvalidIndex) ==> r.calls == []
  {
    var (s1, cmd) := ParseWord(Ws(StringStream(line)));
    Command(s1, cmd, buttons)
  }

  /** The rule selected by the command word `cmd`, applied to the rest of
      the line: blank lines and `#` comments are skipped. */
  function Command(s: Stream, cmd: string, buttons: int): (r: LineResult)
    requires Valid(s)
    ensures r.error == None || r.error == Some(InvalidIndex) || r.error == Some(MissingEqualSign)
         || r.error == Some(InvalidGroupId) || r.error == Some(InvalidCommand)
    ensures r.error != None && r.error != Some(InvalidIndex) ==> r.calls == []
  {
    if cmd == [] || cmd[0] == '#' then LineResult([], None)
    else if cmd == "double-press" then ParseAssignment(s, DoublePressCmd, buttons)
    else if cmd == "toggle" then ParseAssignment(s, ToggleCmd, buttons)
    else if cmd == "group" then ParseGroup(s, buttons)
    else LineResult([], Some(InvalidCommand))
  }

  /** The rest of a `group` line: a non-negative id, then the assignment. */
  function ParseGroup(s: Stream, buttons: int): (r: LineResult)
    requires Valid(s)
    ensures r.error == None || r.error == Some(InvalidIndex) || r.error == Some(MissingEqualSign)
         || r.error == Some(InvalidGroupId)
    ensures r.error != None && r.error != Some(InvalidIndex) ==> r.calls == []
  {
    var (s1, id) := ParseNum(s);
    if id < 0 then LineResult([], Some(InvalidGroupId))
    else ParseAssignment(s1, GroupCmd(id), buttons)
  }

  datatype ConfError = CantOpen | InvalidLine(line: int, message: string)

  /** Everything the file asked for up to the first error, and that error. */
  datatype ConfOutcome = ConfOutcome(calls: seq<Call>, error: Option<ConfError>)

  /** The line loop, numbering from `n`; the first rejected line stops it. */
  function ConfLines(lines: seq<string>, n: int, buttons: int): (r: ConfOutcome)
    ensures r.error.Some? ==> r.error.value.InvalidLine? && n <= r.error.value.line < n + |lines|
    decreases |lines|
  {
    if lines == [] then ConfOutcome([], None)
    else
      var r := ParseLine(lines[0], buttons);
      if r.error.Some? then ConfOutcome(r.calls, Some(InvalidLine(n, r.error.value)))
      else
        var rest := ConfLines(lines[1..], n + 1, buttons);
        ConfOutcome(r.calls + rest.calls, rest.error)
  }

  /** Index of the first newline in `t`, or `|t|` when there is none. */
  function LineEnd(t: string): (k: nat)
    ensures k <= |t|
    ensures forall i :: 0 <= i < k ==> t[i] != '\n'
    ensures k < |t| ==> t[k] == '\n'
    decreases |t|
  {
    if t == [] || t[0] == '\n' then 0 else 1 + LineEnd(t[1..])
  }

  predicate NoNewline(l: string) {
    forall i :: 0 <= i < |l| ==> l[i] != '\n'
  }

  /** The lines `std::getline` returns one after another: the text split
      at each newline, with no empty line after a final newline. */
  function GetLines(t: string): (ls: seq<string>)
    ensures forall i :: 0 <= i < |ls| ==> NoNewline(ls[i])
    decreases |t|
  {
    if t == [] then []
    else
      var k := LineEnd(t);
      if k == |t| then [t] else [t[..k]] + GetLines(t[k + 1..])
  }

  /** `conf_from`: `file` is the file's text, or `None` when it cannot be
      opened; `buttons` is the store's button count. */
  function ConfFrom(file: Option<string>, buttons: int): (r: ConfOutcome)
    ensures file.None? ==> r == ConfOutcome([], Some(CantOpen))
    ensures file.Some? && r.error.Some? ==>
      r.error.value.InvalidLine? && 1 <= r.error.value.line <= |GetLines(file.value)|
  {
    match file
    case None => ConfOutcome([], Some(CantOpen))
    case Some(text) => ConfLines(GetLines(text), 1, buttons)
  }

  //////////////////////////////////////////////////////////////////////
  // What reaches the configuration store

  /** Every call names a button below `buttons`, and every group id is a
      non-negative `int`. */
  predicate CallsValid(calls: seq<Call>, buttons: int) {
    forall i :: 0 <= i < |calls| ==>
      && 0 <= calls[i].idx < buttons
      && (calls[i].SetGroup? ==> 0 <= calls[i].id <= IntMax)
  }

  /** Every call names a button below `buttons`. */
  predicate IndicesBelow(calls: seq<Call>, buttons: int) {
    forall i :: 0 <= i < |calls| ==> 0 <= calls[i].idx < buttons
  }

  /** Every call is command `k` applied to its index. */
  predicate CallsOf(calls: seq<Call>, k: Kind) {
    forall i :: 0 <= i < |calls| ==> calls[i] == MakeCall(k, calls[i].idx)
  }

  /** The index list calls command `k` only, on indices below `buttons`. */
  lemma {:induction false} IndicesCalls(s: Stream, k: Kind, buttons: int)
    requires Valid(s)
    ensures CallsOf(ParseIndices(s, k, buttons).calls, k)
    ensures IndicesBelow(ParseIndices(s, k, buttons).calls, buttons)
    decreases Measure(s), 1
  {
    if !s.eof {
      var idx, r := IndicesTail(s, k, buttons);
      if 0 <= idx < buttons {
        ConsCall(k, idx, r.calls, buttons);
      }
    }
  }

  lemma ConsCall(k: Kind, idx: int, calls: seq<Call>, buttons: int)
    requires 0 <= idx < buttons && CallsOf(calls, k) && IndicesBelow(calls, buttons)
    ensures CallsOf([MakeCall(k, idx)] + calls, k) && IndicesBelow([MakeCall(k, idx)] + calls, buttons)
  {
  }

  /** One step of the index list, with the number read and the rest of
      the list as plain values. */
  lemma IndicesTail(s: Stream, k: Kind, buttons: int) returns (idx: int, r: LineResult)
    requires Valid(s) && !s.eof
    ensures 0 <= idx < buttons ==> ParseIndices(s, k, buttons) == LineResult([MakeCall(k, idx)] + r.calls, r.error)
    ensures !(0 <= idx < buttons) ==> ParseIndices(s, k, buttons) == LineResult([], Some(InvalidIndex))
    ensures 0 <= idx < buttons ==> CallsOf(r.calls, k) && IndicesBelow(r.calls, buttons)
    decreases Measure(s), 0
  {
    var s1;
    s1, idx := ParseNum(s).0, ParseNum(s).1;
    r := ParseIndices(s1, k, buttons);
    if 0 <= idx < buttons {
      IndicesCalls(s1, k, buttons);
    }
  }

  /** Only a line's own command reaches the store, on valid buttons. */
  lemma LineCalls(line: string, buttons: int)
    ensures CallsValid(ParseLine(line, buttons).calls, buttons)
  {
    var (s1, cmd) := ParseWord(Ws(StringStream(line)));
    CommandCalls(s1, cmd, buttons);
  }

  lemma CommandCalls(s: Stream, cmd: string, buttons: int)
    requires Valid(s)
    ensures CallsValid(Command(s, cmd, buttons).calls, buttons)
  {
    if cmd == "double-press" {
      AssignmentCalls(s, DoublePressCmd, buttons);
    } else if cmd == "toggle" {
      AssignmentCalls(s, ToggleCmd, buttons);
    } else if cmd == "group" {
      GroupCalls(s, buttons);
    }
  }

  /** A `group` line calls `SetGroup` only, with its non-negative id. */
  lemma GroupCalls(s: Stream, buttons: int)
    requires Valid(s)
    ensures CallsValid(ParseGroup(s, buttons).calls, buttons)
  {
    var (s1, id) := ParseNum(s);
    if id >= 0 {
      AssignmentCalls(s1, GroupCmd(id), buttons);
    }
  }

  lemma AssignmentCalls(s: Stream, k: Kind, buttons: int)
    requires Valid(s) && (k.GroupCmd? ==> 0 <= k.id <= IntMax)
    ensures CallsValid(ParseAssignment(s, k, buttons).calls, buttons)
  {
    var eq, r := AssignmentTail(s, k, buttons);
    var c := ParseAssignment(s, k, buttons).calls;
    forall i | 0 <= i < |c|
      ensures 0 <= c[i].idx < buttons && (c[i].SetGroup? ==> 0 <= c[i].id <= IntMax)
    {
      assert c[i] == MakeCall(k, c[i].idx);
    }
  }

  /** `=` and the index list, with the index list's result as a plain
      value. */
  lemma AssignmentTail(s: Stream, k: Kind, buttons: int) returns (eq: bool, r: LineResult)
    requires Valid(s)
    ensures eq == ParseEqualSign(s).1
    ensures ParseAssignment(s, k, buttons) == if eq then r else LineResult([], Some(MissingEqualSign))
    ensures CallsOf(r.calls, k) && IndicesBelow(r.calls, buttons)
    ensures r.error == None || r.error == Some(InvalidIndex)
  {
    var s1;
    s1, eq := ParseEqualSign(s).0, ParseEqualSign(s).1;
    r := ParseIndices(s1, k, buttons);
    IndicesCalls(s1, k, buttons);
  }

  /** Every call the file makes, up to its first error, is valid. */
  lemma {:induction false} ConfLinesCalls(lines: seq<string>, n: int, buttons: int)
    ensures CallsValid(ConfLines(lines, n, buttons).calls, buttons)
    decreases |lines|, 1
  {
    if lines != [] {
      var r, rest := ConfLinesTail(lines, n, buttons);
      if r.error.None? {
        AppendValid(r.calls, rest.calls, buttons);
      }
    }
  }

  /** One step of the line loop, with the first line's result and the
      outcome of the others as plain values. */
  lemma ConfLinesTail(lines: seq<string>, n: int, buttons: int) returns (r: LineResult, rest: ConfOutcome)
    requires lines != []
    ensures r.error.Some? ==> ConfLines(lines, n, buttons) == ConfOutcome(r.calls, Some(InvalidLine(n, r.error.value)))
    ensures r.error.None? ==> ConfLines(lines, n, buttons) == ConfOutcome(r.calls + rest.calls, rest.error)
    ensures CallsValid(r.calls, buttons) && CallsValid(rest.calls, buttons)
    decreases |lines|, 0
  {
    r := ParseLine(lines[0], buttons);
    rest := ConfLines(lines[1..], n + 1, buttons);
    LineCalls(lines[0], buttons);
    ConfLinesCalls(lines[1..], n + 1, buttons);
  }

  lemma AppendValid(a: seq<Call>, b: seq<Call>, buttons: int)
    requires CallsValid(a, buttons) && CallsValid(b, buttons)
    ensures CallsValid(a + b, buttons)
  {
  }

  lemma ConfFromCalls(file: Option<string>, buttons: int)
    ensures CallsValid(ConfFrom(file, buttons).calls, buttons)
  {
    if file.Some? {
      ConfLinesCalls(GetLines(file.value), 1, buttons);
    }
  }
}
