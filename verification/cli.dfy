/** The rlcp client's command-line parser (cmd/cli/cli.go): the decision
    procedure over the argument vector and the quote-aware tokenizer that
    splits the command given to `run`.

    `uuid.Parse` is not part of this model: whether a job id parses as a
    UUID is the parameter `isUuid`. */
module Cli {
  import opened Seqs

  /** The operations the client can ask for. `Run` is the zero value. */
  datatype Operation = Run | Status | Output | Stop | Help

  /** The parsed command line. */
  datatype Option = Option(op: Operation, args: seq<string>)

  /** The Go `error` returned beside an Option: nil, or an
      ErrInvalidCommand carrying its message. */
  datatype Error = NoError | InvalidCommand(msg: string)

  datatype Parsed = Parsed(option: Option, err: Error)

  /** Go's zero value `Option{}`. */
  const EmptyOption := Option(Run, [])

  const InvalidCommandMsg := "invalid command"
  const InvalidJobIdMsg := "invalid job id"

  function InvalidOptionMsg(word: string): string {
    "invalid option: " + word
  }

  /** The operation words whose argument is a job id. */
  predicate TakesJobId(word: string) {
    word == "status" || word == "output" || word == "stop"
  }

  function JobIdOperation(word: string): (op: Operation)
    requires TakesJobId(word)
    ensures op == Status || op == Output || op == Stop
  {
    if word == "status" then Status else if word == "output" then Output else Stop
  }

  /** An operation on an existing job: its argument must parse as a UUID. */
  function ValidateOperation(op: Operation, id: string, isUuid: string -> bool): (r: Parsed)
    ensures r.err == NoError <==> isUuid(id)
    ensures isUuid(id) ==> r.option == Option(op, [id])
    ensures !isUuid(id) ==> r == Parsed(EmptyOption, InvalidCommand(InvalidJobIdMsg))
  {
    if !isUuid(id) then Parsed(EmptyOption, InvalidCommand(InvalidJobIdMsg))
    else Parsed(Option(op, [id]), NoError)
  }

  /** `args` is the whole vector, program name included. */
  function ParseCommand(args: seq<string>, isUuid: string -> bool): (r: Parsed)
    // every failure comes with the zero Option
    ensures r.err != NoError ==> r.option == EmptyOption
    // a lone program name, or a vector of any length but 2 or 3
    ensures |args| != 2 && |args| != 3 ==> r == Parsed(EmptyOption, InvalidCommand(InvalidCommandMsg))
    // two words: help exactly when the second is `--help`
    ensures |args| == 2 ==> (r.err == NoError <==> args[1] == "--help")
    ensures |args| == 2 && args[1] == "--help" ==> r.option == Option(Help, [])
    ensures |args| == 2 && args[1] != "--help" ==>
              r.err == InvalidCommand(InvalidOptionMsg(args[1]))
    // three words: an unknown operation word is reported by name
    ensures |args| == 3 && args[1] != "run" && !TakesJobId(args[1]) ==>
              r == Parsed(EmptyOption, InvalidCommand(InvalidOptionMsg(args[1])))
    // `run` always succeeds and carries the tokenized command
    ensures |args| == 3 && args[1] == "run" ==>
              r == Parsed(Option(Run, SplitArguments(args[2])), NoError)
    // status/output/stop carry the id when it is a UUID
    ensures |args| == 3 && TakesJobId(args[1]) && isUuid(args[2]) ==>
              r == Parsed(Option(JobIdOperation(args[1]), [args[2]]), NoError)
    // "invalid job id" is reported exactly for an id operation on a non-UUID
    ensures r.err == InvalidCommand(InvalidJobIdMsg) <==>
              |args| == 3 && TakesJobId(args[1]) && !isUuid(args[2])
    // success yields Help only from `--help`
    ensures r.err == NoError && r.option.op == Help ==> |args| == 2
  {
    if |args| == 1 then
      Parsed(EmptyOption, InvalidCommand(InvalidCommandMsg))
    else if |args| == 2 then
      if args[1] != "--help" then Parsed(EmptyOption, InvalidCommand(InvalidOptionMsg(args[1])))
      else Parsed(Option(Help, []), NoError)
    else if |args| == 3 then
      if args[1] == "run" then Parsed(Option(Run, SplitArguments(args[2])), NoError)
      else if args[1] == "status" then ValidateOperation(Status, args[2], isUuid)
      else if args[1] == "output" then ValidateOperation(Output, args[2], isUuid)
      else if args[1] == "stop" then ValidateOperation(Stop, args[2], isUuid)
      else Parsed(EmptyOption, InvalidCommand(InvalidOptionMsg(args[1])))
    else
      Parsed(EmptyOption, InvalidCommand(InvalidCommandMsg))
  }

  /** Exactly the vectors the parser accepts, read off the usage text. */
  predicate Accepted(args: seq<string>, isUuid: string -> bool) {
    || (|args| == 2 && args[1] == "--help")
    || (|args| == 3 && args[1] == "run")
    || (|args| == 3 && TakesJobId(args[1]) && isUuid(args[2]))
  }

  /** The parser succeeds on precisely the accepted vectors, and the
      operation it returns is the one the operation word names. */
  lemma ParseCommandAccepts(args: seq<string>, isUuid: string -> bool)
    ensures ParseCommand(args, isUuid).err == NoError <==> Accepted(args, isUuid)
    ensures Accepted(args, isUuid) && |args| == 3 ==>
              ParseCommand(args, isUuid).option.op == (if args[1] == "run" then Run else JobIdOperation(args[1]))
  {
  }

  // ---------------------------------------------------------------------
  // splitArguments
  // ---------------------------------------------------------------------

  predicate IsQuote(c: char) {
    c == '\'' || c == '"'
  }

  /** The tokenizer's state between two characters: the stack of open
      quotes, the argument being built and the arguments finished so far. */
  datatype SplitState = SplitState(quotes: seq<char>, arg: string, args: seq<string>)

  const Start := SplitState([], [], [])

  /** One character of the tokenizer loop. */
  function Step(s: SplitState, c: char): SplitState {
    if c == ' ' then
      if |s.quotes| == 0 then
        if |s.arg| > 0 then SplitState(s.quotes, [], s.args + [s.arg]) else s
      else s.(arg := s.arg + [c])
    else if c == '\\' then
      if |s.quotes| > 1 then s.(arg := s.arg + [c]) else s
    else if IsQuote(c) then
      if |s.quotes| == 1 && s.quotes[0] == c then
        SplitState([], [], s.args + [s.arg])
      else if |s.quotes| > 0 then
        var top := s.quotes[|s.quotes| - 1];
        SplitState(if top == c then s.quotes[..|s.quotes| - 1] else s.quotes + [c], s.arg + [c], s.args)
      else
        s.(quotes := s.quotes + [c])
    else s.(arg := s.arg + [c])
  }

  /** The loop over the characters, left to right. */
  function Scan(s: SplitState, cs: string): SplitState
    decreases |cs|
  {
    if cs == [] then s else Scan(Step(s, cs[0]), cs[1..])
  }

  /** After the loop: a pending non-empty argument is the last one. */
  function Finish(s: SplitState): seq<string> {
    if |s.arg| > 0 then s.args + [s.arg] else s.args
  }

  /** `strings.TrimLeft(s, " ")` */
  function TrimLeft(s: string): (r: string)
    ensures |r| <= |s| && r == s[|s| - |r|..]
    ensures r == [] || r[0] != ' '
    ensures forall i :: 0 <= i < |s| - |r| ==> s[i] == ' '
    decreases |s|
  {
    if s != [] && s[0] == ' ' then TrimLeft(s[1..]) else s
  }

  /** `strings.TrimRight(s, " ")` */
  function TrimRight(s: string): (r: string)
    ensures |r| <= |s| && r == s[..|r|]
    ensures r == [] || r[|r| - 1] != ' '
    ensures forall i :: |r| <= i < |s| ==> s[i] == ' '
    decreases |s|
  {
    if s != [] && s[|s| - 1] == ' ' then TrimRight(s[..|s| - 1]) else s
  }

  /** `strings.Trim(s, " ")` */
  function Trim(s: string): string {
    TrimLeft(TrimRight(s))
  }

  /** The arguments of a `run` command line. */
  function SplitArguments(cmd: string): seq<string> {
    Finish(Scan(Start, Trim(cmd)))
  }

  // Reference definitions for the quote-free case.

  /** `strings.Split(s, " ")`: the pieces between spaces, empty ones included. */
  function SplitOnSpace(s: string): (fields: seq<string>)
    ensures |fields| >= 1
    ensures forall i :: 0 <= i < |fields| ==> ' ' !in fields[i]
    decreases |s|
  {
    if s == [] then [[]]
    else
      var rest := SplitOnSpace(s[1..]);
      if s[0] == ' ' then [[]] + rest else [[s[0]] + rest[0]] + rest[1..]
  }

  /** The non-empty elements, in order. */
  function NonEmpty(fields: seq<string>): (r: seq<string>)
    ensures forall i :: 0 <= i < |r| ==> r[i] != [] && r[i] in fields
    decreases |fields|
  {
    if fields == [] then []
    else (if fields[0] == [] then [] else [fields[0]]) + NonEmpty(fields[1..])
  }

  /** The words of s: split on spaces, empty fields dropped. */
  function Fields(s: string): seq<string> {
    NonEmpty(SplitOnSpace(s))
  }

  function DropBackslashes(s: string): (r: string)
    ensures '\\' !in r
    decreases |s|
  {
    if s == [] then [] else (if s[0] == '\\' then [] else [s[0]]) + DropBackslashes(s[1..])
  }

  predicate NoQuotes(s: string) {
    forall i :: 0 <= i < |s| ==> !IsQuote(s[i])
  }

  function Prepend(a: string, fields: seq<string>): seq<string>
    requires |fields| >= 1
  {
    [a + fields[0]] + fields[1..]
  }

  /** An empty pending argument adds nothing to the first field. */
  lemma PrependEmpty(fields: seq<string>)
    requires |fields| >= 1
    ensures Prepend([], fields) == fields
  {
    assert [] + fields[0] == fields[0];
    assert [fields[0]] + fields[1..] == fields;
  }

  lemma {:induction false} ScanConcat(s: SplitState, x: string, y: string)
    ensures Scan(s, x + y) == Scan(Scan(s, x), y)
    decreases |x|
  {
    if x != [] {
      assert (x + y)[0] == x[0];
      assert (x + y)[1..] == x[1..] + y;
      ScanConcat(Step(s, x[0]), x[1..], y);
    } else {
      assert x + y == y;
    }
  }

  /** Dropping empty fields commutes with putting one field in front. */
  lemma NonEmptyCons(x: string, fields: seq<string>)
    ensures NonEmpty([x] + fields) == (if x == [] then [] else [x]) + NonEmpty(fields)
  {
    assert ([x] + fields)[0] == x;
    assert ([x] + fields)[1..] == fields;
  }

  lemma DropBackslashesCons(c: char, s: string)
    ensures DropBackslashes([c] + s) == (if c == '\\' then [] else [c]) + DropBackslashes(s)
  {
    assert ([c] + s)[0] == c;
    assert ([c] + s)[1..] == s;
  }

  lemma SplitOnSpaceCons(c: char, s: string)
    ensures c == ' ' ==> SplitOnSpace([c] + s) == [[]] + SplitOnSpace(s)
    ensures c != ' ' ==> SplitOnSpace([c] + s) == Prepend([c], SplitOnSpace(s))
  {
    assert ([c] + s)[0] == c;
    assert ([c] + s)[1..] == s;
  }

  /** A space outside quotes ends the pending argument, if there is one. */
  lemma ScanSpaceStep(a: string, done: seq<string>, fs: seq<string>)
    requires |fs| >= 1
    ensures var s := Step(SplitState([], a, done), ' ');
      && s.quotes == []
      && s.args + NonEmpty(Prepend(s.arg, fs)) == done + NonEmpty([a] + fs)
  {
    var s := Step(SplitState([], a, done), ' ');
    if a != [] {
      assert s == SplitState([], [], done + [a]);
      SpaceEndsWord(a, done, fs);
    } else {
      assert s == SplitState([], [], done);
      var tail := NonEmpty(fs);
      PrependEmpty(fs);
      assert NonEmpty(Prepend(s.arg, fs)) == tail;
      NonEmptyCons(a, fs);
      assert NonEmpty([a] + fs) == [] + tail;
      assert [] + tail == tail;
    }
  }

  lemma SpaceEndsWord(a: string, done: seq<string>, fs: seq<string>)
    requires a != [] && |fs| >= 1
    ensures (done + [a]) + NonEmpty(Prepend([], fs)) == done + NonEmpty([a] + fs)
  {
    var tail := NonEmpty(fs);
    PrependEmpty(fs);
    assert NonEmpty(Prepend([], fs)) == tail;
    NonEmptyCons(a, fs);
    assert NonEmpty([a] + fs) == [a] + tail;
    AppendAssoc(done, [a], tail);
  }

  /** Any other character outside quotes joins the pending argument. */
  lemma ScanWordStep(a: string, done: seq<string>, c: char, fs: seq<string>)
    requires !IsQuote(c) && c != '\\' && c != ' ' && |fs| >= 1
    ensures var s := Step(SplitState([], a, done), c);
      && s.quotes == []
      && s.args + NonEmpty(Prepend(s.arg, fs)) == done + NonEmpty(Prepend(a, Prepend([c], fs)))
  {
    assert Step(SplitState([], a, done), c) == SplitState([], a + [c], done);
    var pc := Prepend([c], fs);
    assert pc[0] == [c] + fs[0] && pc[1..] == fs[1..];
    assert Prepend(a, pc) == Prepend(a + [c], fs) by {
      assert a + ([c] + fs[0]) == (a + [c]) + fs[0];
    }
  }

  /** The first character of a quote-free line, outside quotes. */
  lemma ScanUnquotedStep(a: string, done: seq<string>, c: char, fs: seq<string>)
    requires !IsQuote(c) && c != '\\' && |fs| >= 1
    ensures var s := Step(SplitState([], a, done), c);
      && s.quotes == []
      && s.args + NonEmpty(Prepend(s.arg, fs))
         == done + NonEmpty(Prepend(a, if c == ' ' then [[]] + fs else Prepend([c], fs)))
  {
    if c == ' ' {
      ScanSpaceStep(a, done, fs);
      assert Prepend(a, [[]] + fs) == [a] + fs by {
        assert ([[]] + fs)[0] == [] && ([[]] + fs)[1..] == fs;
        assert a + [] == a;
      }
    } else {
      ScanWordStep(a, done, c, fs);
    }
  }

  /** Outside quotes, the loop builds exactly the words of the input once
      backslashes are removed; the stack stays empty. */
  lemma {:induction false} ScanUnquoted(a: string, done: seq<string>, cs: string)
    requires NoQuotes(cs)
    ensures Scan(SplitState([], a, done), cs).quotes == []
    ensures Finish(Scan(SplitState([], a, done), cs))
              == done + NonEmpty(Prepend(a, SplitOnSpace(DropBackslashes(cs))))
    decreases |cs|
  {
    if cs == [] {
      assert SplitOnSpace(DropBackslashes(cs)) == [[]];
      assert a + [] == a;
      NonEmptyCons(a, []);
    } else {
      var c := cs[0];
      var rest := cs[1..];
      assert cs == [c] + rest;
      assert NoQuotes(rest) by {
        forall i | 0 <= i < |rest| ensures !IsQuote(rest[i]) {
          assert rest[i] == cs[i + 1];
        }
      }
      var d := DropBackslashes(rest);
      DropBackslashesCons(c, rest);
      if c == '\\' {
        assert [] + d == d;
        assert Step(SplitState([], a, done), c) == SplitState([], a, done);
        ScanUnquoted(a, done, rest);
      } else {
        var fs := SplitOnSpace(d);
        SplitOnSpaceCons(c, d);
        ScanUnquotedStep(a, done, c, fs);
        var s := Step(SplitState([], a, done), c);
        ScanUnquoted(s.arg, s.args, rest);
      }
    }
  }

  /** Outside quotes, trailing spaces end the current word and add nothing. */
  lemma {:induction false} TrailingSpacesUnquoted(cs: string)
    requires NoQuotes(cs)
    ensures Finish(Scan(Start, TrimRight(cs))) == Finish(Scan(Start, cs))
    decreases |cs|
  {
    if cs != [] && cs[|cs| - 1] == ' ' {
      var init := cs[..|cs| - 1];
      assert NoQuotes(init) by {
        forall i | 0 <= i < |init| ensures !IsQuote(init[i]) {
          assert init[i] == cs[i];
        }
      }
      TrailingSpacesUnquoted(init);
      assert init + [' '] == cs;
      ScanConcat(Start, init, [' ']);
      ScanUnquoted([], [], init);
      var s := Scan(Start, init);
      assert Scan(s, [' ']) == Step(s, ' ');
    }
  }

  /** Leading spaces before anything is open are skipped. */
  lemma {:induction false} LeadingSpacesSkipped(done: seq<string>, cs: string)
    ensures Scan(SplitState([], [], done), TrimLeft(cs)) == Scan(SplitState([], [], done), cs)
    decreases |cs|
  {
    if cs != [] && cs[0] == ' ' {
      LeadingSpacesSkipped(done, cs[1..]);
    }
  }

  /** A command line without quotes splits into its words: split on spaces,
      empty fields dropped, backslashes removed. */
  lemma SplitUnquoted(cmd: string)
    requires NoQuotes(cmd)
    ensures SplitArguments(cmd) == Fields(DropBackslashes(cmd))
  {
    var t := TrimRight(cmd);
    assert NoQuotes(t) by {
      forall i | 0 <= i < |t| ensures !IsQuote(t[i]) {
        assert t[i] == cmd[i];
      }
    }
    LeadingSpacesSkipped([], t);
    TrailingSpacesUnquoted(cmd);
    ScanUnquoted([], [], cmd);
    var fs := SplitOnSpace(DropBackslashes(cmd));
    PrependEmpty(fs);
    assert [] + NonEmpty(fs) == NonEmpty(fs);
  }

  /** Without quotes or backslashes every argument is a non-empty,
      space-free word of the input. */
  lemma SplitPlainWords(cmd: string)
    requires NoQuotes(cmd) && '\\' !in cmd
    ensures SplitArguments(cmd) == Fields(cmd)
    ensures forall i :: 0 <= i < |SplitArguments(cmd)| ==>
              SplitArguments(cmd)[i] != [] && ' ' !in SplitArguments(cmd)[i]
  {
    SplitUnquoted(cmd);
    NoBackslashUnchanged(cmd);
  }

  lemma {:induction false} NoBackslashUnchanged(s: string)
    requires '\\' !in s
    ensures DropBackslashes(s) == s
    decreases |s|
  {
    if s != [] {
      assert s == [s[0]] + s[1..];
      NoBackslashUnchanged(s[1..]);
    }
  }

  // Reference definition for a quoted argument.

  function OtherQuote(q: char): char
    requires IsQuote(q)
  {
    if q == '"' then '\'' else '"'
  }

  /** The quote stack inside an outer quote q, with or without one inner
      quote of the other kind open. */
  function Stack(q: char, inner: bool): seq<char>
    requires IsQuote(q)
  {
    if inner then [q, OtherQuote(q)] else [q]
  }

  /** What one character inside an outer quote q contributes to the
      argument: itself, except that a backslash is kept only between inner
      quotes. */
  function QuotedKeep(c: char, inner: bool): string {
    if c == '\\' then (if inner then [c] else []) else [c]
  }

  /** Whether an inner quote is open after the character c. */
  function InnerAfter(q: char, c: char, inner: bool): bool
    requires IsQuote(q)
  {
    if c == OtherQuote(q) then !inner else inner
  }

  /** The text of an outer-quoted region as it reaches the argument: every
      character is kept, inner quotes included, except that a backslash is
      kept only between inner quotes. `inner` says whether an inner quote
      is open. */
  function Unquote(body: string, q: char, inner: bool): string
    requires IsQuote(q)
    decreases |body|
  {
    if body == [] then []
    else QuotedKeep(body[0], inner) + Unquote(body[1..], q, InnerAfter(q, body[0], inner))
  }

  /** Whether an inner quote is still open at the end of the body. */
  function InnerOpenAfter(body: string, q: char, inner: bool): bool
    requires IsQuote(q)
    decreases |body|
  {
    if body == [] then inner
    else InnerOpenAfter(body[1..], q, InnerAfter(q, body[0], inner))
  }

  /** One character inside an outer quote q, other than q itself. */
  lemma QuotedStep(q: char, inner: bool, a: string, done: seq<string>, c: char)
    requires IsQuote(q) && c != q
    ensures Step(SplitState(Stack(q, inner), a, done), c)
              == SplitState(Stack(q, InnerAfter(q, c, inner)), a + QuotedKeep(c, inner), done)
  {
  }

  /** Inside an outer quote q whose body does not contain q, the loop
      appends exactly Unquote(body) to the argument. */
  lemma {:induction false} ScanQuotedBody(q: char, inner: bool, a: string, done: seq<string>, body: string)
    requires IsQuote(q) && q !in body
    ensures Scan(SplitState(Stack(q, inner), a, done), body)
              == SplitState(Stack(q, InnerOpenAfter(body, q, inner)), a + Unquote(body, q, inner), done)
    decreases |body|
  {
    if body == [] {
      assert a + [] == a;
    } else {
      var c := body[0];
      var inner' := InnerAfter(q, c, inner);
      var keep := QuotedKeep(c, inner);
      assert c in body;
      QuotedStep(q, inner, a, done, c);
      ScanQuotedBody(q, inner', a + keep, done, body[1..]);
      AppendAssoc(a, keep, Unquote(body[1..], q, inner'));
    }
  }

  // Reference definition for quotes nested to any depth. Unquote above is
  // its two-level case (TwoLevels).

  /** The quote stack after the character c inside a quoted region: a quote
      equal to the innermost open one closes it, any other quote opens a
      new level. */
  function Nest(st: seq<char>, c: char): seq<char> {
    if IsQuote(c) && |st| > 0 && st[|st| - 1] == c then st[..|st| - 1]
    else if IsQuote(c) then st + [c]
    else st
  }

  function NestAfter(st: seq<char>, body: string): seq<char>
    decreases |body|
  {
    if body == [] then st else NestAfter(Nest(st, body[0]), body[1..])
  }

  /** No character of the body closes the outermost quote: the stack never
      becomes empty. */
  predicate StaysOpen(st: seq<char>, body: string)
    decreases |body|
  {
    |st| > 0 && (body == [] || StaysOpen(Nest(st, body[0]), body[1..]))
  }

  /** What one character contributes at stack `st`: itself, except that a
      backslash is dropped when only the outer quote is open. */
  function Keep(st: seq<char>, c: char): string {
    if c == '\\' && |st| <= 1 then [] else [c]
  }

  /** The text of a quoted region as it reaches the argument. */
  function QuotedText(st: seq<char>, body: string): string
    decreases |body|
  {
    if body == [] then [] else Keep(st, body[0]) + QuotedText(Nest(st, body[0]), body[1..])
  }

  /** `body` is the inside of one outer quote pair q: it never closes q and
      closes every quote it opens. */
  predicate Enclosed(q: char, body: string) {
    StaysOpen([q], body) && NestAfter([q], body) == [q]
  }

  /** One character inside a quoted region that does not close it. */
  lemma NestedStep(st: seq<char>, a: string, done: seq<string>, c: char)
    requires |st| > 0 && |Nest(st, c)| > 0
    ensures Step(SplitState(st, a, done), c) == SplitState(Nest(st, c), a + Keep(st, c), done)
  {
  }

  /** Inside a quoted region that stays open, the loop appends exactly the
      region's QuotedText to the argument and tracks the stack as Nest
      does. */
  lemma {:induction false} ScanNested(st: seq<char>, a: string, done: seq<string>, body: string)
    requires StaysOpen(st, body)
    ensures Scan(SplitState(st, a, done), body)
              == SplitState(NestAfter(st, body), a + QuotedText(st, body), done)
    decreases |body|
  {
    if body == [] {
      assert a + [] == a;
    } else {
      var c := body[0];
      var st' := Nest(st, c);
      var keep := Keep(st, c);
      NestedStep(st, a, done, c);
      ScanNested(st', a + keep, done, body[1..]);
      AppendAssoc(a, keep, QuotedText(st', body[1..]));
    }
  }

  /** At depth one or two, with the outer quote absent from the body, the
      general definition is the two-level one. */
  lemma {:induction false} TwoLevels(q: char, inner: bool, body: string)
    requires IsQuote(q) && q !in body
    ensures StaysOpen(Stack(q, inner), body)
    ensures NestAfter(Stack(q, inner), body) == Stack(q, InnerOpenAfter(body, q, inner))
    ensures QuotedText(Stack(q, inner), body) == Unquote(body, q, inner)
    decreases |body|
  {
    if body != [] {
      var c := body[0];
      assert c in body;
      assert Nest(Stack(q, inner), c) == Stack(q, InnerAfter(q, c, inner));
      assert Keep(Stack(q, inner), c) == QuotedKeep(c, inner);
      assert forall k :: 0 <= k < |body[1..]| ==> body[1..][k] == body[k + 1];
      TwoLevels(q, InnerAfter(q, c, inner), body[1..]);
    }
  }

  /** An outer quote pair opened and closed outside any quote: one more
      argument, holding the text between the quotes, inner quotes of any
      depth included. */
  lemma ScanQuotedRegion(done: seq<string>, q: char, body: string)
    requires IsQuote(q) && Enclosed(q, body)
    ensures Scan(SplitState([], [], done), [q] + body + [q])
              == SplitState([], [], done + [QuotedText([q], body)])
  {
    var s := SplitState([], [], done);
    var afterOpen := Step(s, q);
    assert afterOpen == SplitState([q], [], done);
    ScanConcat(s, [q] + body, [q]);
    ScanConcat(s, [q], body);
    assert Scan(s, [q]) == afterOpen;
    ScanNested([q], [], done, body);
    var u := QuotedText([q], body);
    assert [] + u == u;
    assert Scan(SplitState([q], u, done), [q]) == Step(SplitState([q], u, done), q);
  }

  /** Quote-free words and a space leave nothing pending. */
  lemma ScanWordsThenSpace(words: string)
    requires NoQuotes(words)
    ensures Scan(Start, words + " ") == SplitState([], [], Fields(DropBackslashes(words)))
  {
    ScanConcat(Start, words, " ");
    ScanUnquoted([], [], words);
    var s := Scan(Start, words);
    var fs := SplitOnSpace(DropBackslashes(words));
    PrependEmpty(fs);
    assert [] + NonEmpty(fs) == NonEmpty(fs);
    assert Scan(s, " ") == Step(s, ' ');
  }

  /** A line ending in a quote loses only its leading spaces to trimming,
      and those the loop skips anyway. */
  lemma TrimBeforeQuote(cmd: string)
    requires |cmd| > 0 && IsQuote(cmd[|cmd| - 1])
    ensures Scan(Start, Trim(cmd)) == Scan(Start, cmd)
  {
    assert TrimRight(cmd) == cmd;
    LeadingSpacesSkipped([], cmd);
  }

  /** A run of words followed by one argument in an outer quote pair: the
      words split as usual, and the quoted region becomes exactly one more
      argument with the outer quotes stripped and the inner quotes and
      spaces kept. */
  lemma SplitQuotedLast(words: string, q: char, body: string)
    requires NoQuotes(words)
    requires IsQuote(q) && Enclosed(q, body)
    ensures SplitArguments(words + " " + [q] + body + [q])
              == Fields(DropBackslashes(words)) + [QuotedText([q], body)]
  {
    var quoted := [q] + body + [q];
    var cmd := words + " " + [q] + body + [q];
    assert cmd == (words + " ") + quoted;
    TrimBeforeQuote(cmd);
    ScanConcat(Start, words + " ", quoted);
    ScanWordsThenSpace(words);
    ScanQuotedRegion(Fields(DropBackslashes(words)), q, body);
  }

  /** One outer quote pair alone gives one argument. */
  lemma SplitQuoted(q: char, body: string)
    requires IsQuote(q) && Enclosed(q, body)
    ensures SplitArguments([q] + body + [q]) == [QuotedText([q], body)]
  {
    var cmd := [q] + body + [q];
    TrimBeforeQuote(cmd);
    ScanQuotedRegion([], q, body);
    assert [] + [QuotedText([q], body)] == [QuotedText([q], body)];
  }


  /** Within an outer quote, text without backslashes or inner quotes is
      kept verbatim, spaces included. */
  lemma {:induction false} UnquotePlain(body: string, q: char, inner: bool)
    requires IsQuote(q) && '\\' !in body && OtherQuote(q) !in body
    ensures Unquote(body, q, inner) == body
    ensures InnerOpenAfter(body, q, inner) == inner
    decreases |body|
  {
    if body != [] {
      assert body == [body[0]] + body[1..];
      UnquotePlain(body[1..], q, inner);
    }
  }

  // ---------------------------------------------------------------------
  // The parser's test table (cmd/cli/cli_test.go)
  // ---------------------------------------------------------------------

  /** The table's rows for `--help` and for malformed vectors. */
  lemma ParseCommandErrorTable(isUuid: string -> bool)
    ensures ParseCommand(["rlcp", "--help"], isUuid) == Parsed(Option(Help, []), NoError)
    ensures ParseCommand(["rlcp", "-help"], isUuid)
              == Parsed(EmptyOption, InvalidCommand("invalid option: -help"))
    ensures ParseCommand(["rlcp", "kill", "process"], isUuid)
              == Parsed(EmptyOption, InvalidCommand("invalid option: kill"))
    ensures ParseCommand(["rlcp", "duck", "and", "cover"], isUuid)
              == Parsed(EmptyOption, InvalidCommand("invalid command"))
  {
  }

  /** The table's rows for the job-id operations, with `isUuid` accepting
      the three well-formed ids it uses and rejecting "invalid-uuid". */
  lemma ParseCommandJobIdTable(isUuid: string -> bool)
    requires isUuid("af1f8215-bee7-455d-874a-55f0e3fb20b5")
    requires isUuid("6c4bc197-b0e4-4ee3-a6be-b3b591ffad70")
    requires isUuid("cc430a1e-ab90-4cc0-b3b5-0ed22303b99a")
    requires !isUuid("invalid-uuid")
    ensures ParseCommand(["rlcp", "status", "af1f8215-bee7-455d-874a-55f0e3fb20b5"], isUuid)
              == Parsed(Option(Status, ["af1f8215-bee7-455d-874a-55f0e3fb20b5"]), NoError)
    ensures ParseCommand(["rlcp", "status", "invalid-uuid"], isUuid)
              == Parsed(EmptyOption, InvalidCommand("invalid job id"))
    ensures ParseCommand(["rlcp", "output", "6c4bc197-b0e4-4ee3-a6be-b3b591ffad70"], isUuid)
              == Parsed(Option(Output, ["6c4bc197-b0e4-4ee3-a6be-b3b591ffad70"]), NoError)
    ensures ParseCommand(["rlcp", "output", "invalid-uuid"], isUuid)
              == Parsed(EmptyOption, InvalidCommand("invalid job id"))
    ensures ParseCommand(["rlcp", "stop", "cc430a1e-ab90-4cc0-b3b5-0ed22303b99a"], isUuid)
              == Parsed(Option(Stop, ["cc430a1e-ab90-4cc0-b3b5-0ed22303b99a"]), NoError)
    ensures ParseCommand(["rlcp", "stop", "invalid-uuid"], isUuid)
              == Parsed(EmptyOption, InvalidCommand("invalid job id"))
  {
  }

  /** A word without spaces is one field. */
  lemma {:induction false} SplitOnSpaceWord(w: string)
    requires ' ' !in w
    ensures SplitOnSpace(w) == [w]
    decreases |w|
  {
    if w != [] {
      assert w == [w[0]] + w[1..];
      SplitOnSpaceCons(w[0], w[1..]);
      SplitOnSpaceWord(w[1..]);
    }
  }

  /** A word without spaces followed by a space is the first field. */
  lemma {:induction false} SplitOnSpaceThen(w: string, rest: string)
    requires ' ' !in w
    ensures SplitOnSpace(w + " " + rest) == [w] + SplitOnSpace(rest)
    decreases |w|
  {
    if w == [] {
      assert w + " " + rest == [' '] + rest;
      SplitOnSpaceCons(' ', rest);
    } else {
      var t := w[1..];
      assert w + " " + rest == [w[0]] + (t + " " + rest);
      SplitOnSpaceCons(w[0], t + " " + rest);
      SplitOnSpaceThen(t, rest);
      assert [w[0]] + t == w;
    }
  }

  /** The words of a line are its first word and then the words of the rest. */
  lemma FieldsThen(w: string, rest: string)
    requires w != [] && ' ' !in w
    ensures Fields(w + " " + rest) == [w] + Fields(rest)
  {
    SplitOnSpaceThen(w, rest);
    NonEmptyCons(w, SplitOnSpace(rest));
  }

  lemma FieldsWord(w: string)
    requires w != [] && ' ' !in w
    ensures Fields(w) == [w]
  {
    SplitOnSpaceWord(w);
    NonEmptyCons(w, []);
  }

  /** Inner quotes toggle independently in each part of a body. */
  lemma {:induction false} InnerOpenAfterConcat(x: string, y: string, q: char, inner: bool)
    requires IsQuote(q)
    ensures InnerOpenAfter(x + y, q, inner) == InnerOpenAfter(y, q, InnerOpenAfter(x, q, inner))
    decreases |x|
  {
    if x != [] {
      assert (x + y)[0] == x[0] && (x + y)[1..] == x[1..] + y;
      InnerOpenAfterConcat(x[1..], y, q, InnerAfter(q, x[0], inner));
    } else {
      assert x + y == y;
    }
  }

  /** Without backslashes an outer-quoted body reaches the argument intact,
      inner quotes included. */
  lemma {:induction false} UnquoteNoBackslash(body: string, q: char, inner: bool)
    requires IsQuote(q) && '\\' !in body
    ensures Unquote(body, q, inner) == body
    decreases |body|
  {
    if body != [] {
      assert body == [body[0]] + body[1..];
      UnquoteNoBackslash(body[1..], q, InnerAfter(q, body[0], inner));
    }
  }

  /** A word that needs no quoting: no spaces, quotes or backslashes. */
  predicate PlainWord(w: string) {
    w != [] && ' ' !in w && NoQuotes(w) && '\\' !in w
  }

  lemma SplitOneWord(a: string)
    requires PlainWord(a)
    ensures SplitArguments(a) == [a]
  {
    SplitPlainWords(a);
    FieldsWord(a);
  }

  /** Quote- and backslash-free text joined by a space stays so. */
  lemma JoinUnquoted(a: string, b: string)
    requires NoQuotes(a) && '\\' !in a && NoQuotes(b) && '\\' !in b
    ensures NoQuotes(a + " " + b) && '\\' !in a + " " + b
  {
    var cmd := a + " " + b;
    forall i | 0 <= i < |cmd| ensures !IsQuote(cmd[i]) && cmd[i] != '\\' {
      if i < |a| { assert cmd[i] == a[i]; }
      else if i > |a| { assert cmd[i] == b[i - |a| - 1]; }
    }
  }

  /** On a line without quotes or backslashes, a plain first word is the
      first argument and the rest of the line gives the others. */
  lemma SplitWordThen(a: string, rest: string)
    requires PlainWord(a) && NoQuotes(rest) && '\\' !in rest
    ensures SplitArguments(a + " " + rest) == [a] + SplitArguments(rest)
  {
    JoinUnquoted(a, rest);
    SplitPlainWords(a + " " + rest);
    SplitPlainWords(rest);
    FieldsThen(a, rest);
  }

  lemma SplitTwoWords(a: string, b: string)
    requires PlainWord(a) && PlainWord(b)
    ensures SplitArguments(a + " " + b) == [a, b]
  {
    SplitWordThen(a, b);
    SplitOneWord(b);
  }

  lemma SplitThreeWords(a: string, b: string, c: string)
    requires PlainWord(a) && PlainWord(b) && PlainWord(c)
    ensures SplitArguments(a + " " + (b + " " + c)) == [a, b, c]
  {
    JoinUnquoted(b, c);
    SplitWordThen(a, b + " " + c);
    SplitTwoWords(b, c);
  }

  /** `run` with one word. */
  lemma RunOneWordTable()
    ensures SplitArguments("pwd") == ["pwd"]
  {
    SplitOneWord("pwd");
  }

  /** `run` with several plain words: each word is one argument. */
  lemma RunPlainWordsTable()
    ensures SplitArguments("ls -la ../") == ["ls", "-la", "../"]
  {
    assert "ls -la ../" == "ls" + " " + ("-la" + " " + "../");
    SplitThreeWords("ls", "-la", "../");
  }

  /** A plain word and then an outer-quoted body without backslashes: two
      arguments, the second the body as written. */
  lemma SplitWordThenQuoted(a: string, q: char, body: string)
    requires PlainWord(a) && IsQuote(q) && Enclosed(q, body) && '\\' !in body
    ensures SplitArguments(a + " " + [q] + body + [q]) == [a, body]
  {
    SplitQuotedLast(a, q, body);
    NoBackslashUnchanged(a);
    FieldsWord(a);
    QuotedTextNoBackslash([q], body);
  }

  /** The same after two plain words. */
  lemma SplitTwoWordsThenQuoted(a: string, b: string, q: char, body: string)
    requires PlainWord(a) && PlainWord(b) && IsQuote(q) && Enclosed(q, body) && '\\' !in body
    ensures SplitArguments((a + " " + b) + " " + [q] + body + [q]) == [a, b, body]
  {
    JoinUnquoted(a, b);
    SplitQuotedLast(a + " " + b, q, body);
    NoBackslashUnchanged(a + " " + b);
    FieldsThen(a, b);
    FieldsWord(b);
    QuotedTextNoBackslash([q], body);
  }

  /** A body holding one closed inner quote leaves no inner quote open. */
  lemma ClosedInnerQuote(x: string, y: string, z: string, q: char)
    requires IsQuote(q)
    requires OtherQuote(q) !in x && OtherQuote(q) !in y && OtherQuote(q) !in z
    requires '\\' !in x && '\\' !in y && '\\' !in z
    ensures !InnerOpenAfter(x + [OtherQuote(q)] + y + [OtherQuote(q)] + z, q, false)
  {
    var o := [OtherQuote(q)];
    UnquotePlain(x, q, false);
    UnquotePlain(y, q, true);
    UnquotePlain(z, q, false);
    InnerOpenAfterConcat(x + o + y + o, z, q, false);
    InnerOpenAfterConcat(x + o + y, o, q, false);
    InnerOpenAfterConcat(x + o, y, q, false);
    InnerOpenAfterConcat(x, o, q, false);
  }

  /** A body without inner quotes leaves none open. */
  lemma NoInnerQuote(body: string, q: char)
    requires IsQuote(q) && OtherQuote(q) !in body && '\\' !in body
    ensures !InnerOpenAfter(body, q, false)
  {
    UnquotePlain(body, q, false);
  }

  lemma QuoteFree(s: string)
    requires NoQuotes(s)
    ensures '\'' !in s && '"' !in s
  {
    forall i | 0 <= i < |s| ensures s[i] != '\'' && s[i] != '"' {
      assert !IsQuote(s[i]);
    }
  }

  /** A plain word and a single-quoted text without quotes or backslashes. */
  lemma SplitWordThenSingleQuoted(a: string, body: string)
    requires PlainWord(a) && NoQuotes(body) && '\\' !in body
    ensures SplitArguments(a + " '" + body + "'") == [a, body]
  {
    assert a + " '" + body + "'" == a + " " + ['\''] + body + ['\''];
    QuoteFree(body);
    NoInnerQuote(body, '\'');
    TwoLevels('\'', false, body);
    SplitWordThenQuoted(a, '\'', body);
  }

  /** Two plain words, then a double-quoted text holding one single-quoted
      part. */
  lemma SplitTwoWordsThenNested(a: string, b: string, x: string, y: string)
    requires PlainWord(a) && PlainWord(b)
    requires NoQuotes(x) && '\\' !in x && NoQuotes(y) && '\\' !in y
    ensures SplitArguments(a + " " + b + " \"" + x + "'" + y + "'\"") == [a, b, x + "'" + y + "'"]
  {
    QuoteFree(x);
    QuoteFree(y);
    var body := x + "'" + y + "'";
    assert body == x + ['\''] + y + ['\''] + "";
    ClosedInnerQuote(x, y, "", '"');
    assert '"' !in body;
    assert '\\' !in body;
    TwoLevels('"', false, body);
    assert a + " " + b + " \"" + x + "'" + y + "'\"" == (a + " " + b) + " " + ['"'] + body + ['"'];
    SplitTwoWordsThenQuoted(a, b, '"', body);
  }

  /** `run` with one level of quotes: the quotes are dropped. */
  lemma RunQuotedTable()
    ensures SplitArguments("echo 'my name is jonas'") == ["echo", "my name is jonas"]
  {
    assert "echo 'my name is jonas'" == "echo" + " '" + "my name is jonas" + "'";
    SplitWordThenSingleQuoted("echo", "my name is jonas");
  }

  /** `run` with two levels of quotes: the outer quotes are dropped and the
      inner ones kept. */
  lemma RunNestedQuotesTable()
    ensures SplitArguments("sh -c \"echo 'my name is jonas'\"") == ["sh", "-c", "echo 'my name is jonas'"]
  {
    NestedQuotesLine();
    SplitTwoWordsThenNested("sh", "-c", "echo ", "my name is jonas");
  }

  /** The line of the row above, cut where the lemmas cut it. */
  lemma NestedQuotesLine()
    ensures "sh -c \"echo 'my name is jonas'\""
              == "sh" + " " + "-c" + " \"" + "echo " + "'" + "my name is jonas" + "'\""
    ensures "echo 'my name is jonas'" == "echo " + "'" + "my name is jonas" + "'"
  {
  }

  /** Without backslashes a quoted region reaches the argument intact,
      quotes of every depth included. */
  lemma {:induction false} QuotedTextNoBackslash(st: seq<char>, body: string)
    requires '\\' !in body
    ensures QuotedText(st, body) == body
    decreases |body|
  {
    if body != [] {
      assert body == [body[0]] + body[1..];
      QuotedTextNoBackslash(Nest(st, body[0]), body[1..]);
    }
  }

  /** The stack and whether the region stays open compose over
      concatenation. */
  lemma {:induction false} NestConcat(st: seq<char>, x: string, y: string)
    ensures NestAfter(st, x + y) == NestAfter(NestAfter(st, x), y)
    ensures StaysOpen(st, x + y) <==> StaysOpen(st, x) && StaysOpen(NestAfter(st, x), y)
    decreases |x|
  {
    if x == [] {
      assert x + y == y;
    } else {
      assert (x + y)[0] == x[0] && (x + y)[1..] == x[1..] + y;
      NestConcat(Nest(st, x[0]), x[1..], y);
    }
  }

  /** Quote-free text inside an open quote leaves the stack alone. */
  lemma {:induction false} PlainNest(st: seq<char>, p: string)
    requires |st| > 0 && NoQuotes(p)
    ensures StaysOpen(st, p) && NestAfter(st, p) == st
    decreases |p|
  {
    if p != [] {
      assert !IsQuote(p[0]);
      assert forall k :: 0 <= k < |p[1..]| ==> p[1..][k] == p[k + 1];
      PlainNest(st, p[1..]);
    }
  }

  /** A region that opens at stack `st` and ends at stack `st'` followed by
      one that goes on from `st'`. */
  lemma Extend(st: seq<char>, x: string, st': seq<char>, y: string, st'': seq<char>)
    requires StaysOpen(st, x) && NestAfter(st, x) == st'
    requires StaysOpen(st', y) && NestAfter(st', y) == st''
    ensures StaysOpen(st, x + y) && NestAfter(st, x + y) == st''
  {
    NestConcat(st, x, y);
  }

  /** One quote inside an open region that it does not close. */
  lemma OneQuote(st: seq<char>, c: char)
    requires |st| > 0 && |Nest(st, c)| > 0
    ensures StaysOpen(st, [c]) && NestAfter(st, [c]) == Nest(st, c)
  {
    assert [c][1..] == [];
  }

  /** The quote stack of a body nested three levels deep: single quotes
      inside the outer double quote, and double quotes inside those. */
  lemma ThreeLevelsEnclosed(x: string, y: string, z: string, u: string, v: string)
    requires NoQuotes(x) && NoQuotes(y) && NoQuotes(z) && NoQuotes(u) && NoQuotes(v)
    ensures Enclosed('"', x + "'" + y + "\"" + z + "\"" + u + "'" + v)
  {
    var d, ds, dsd := ['"'], ['"', '\''], ['"', '\'', '"'];
    var p1 := x + "'";
    var p2 := p1 + y;
    var p3 := p2 + "\"";
    var p4 := p3 + z;
    var p5 := p4 + "\"";
    var p6 := p5 + u;
    var p7 := p6 + "'";
    PlainNest(d, x);
    OneQuote(d, '\'');
    Extend(d, x, d, "'", ds);
    PlainNest(ds, y);
    Extend(d, p1, ds, y, ds);
    OneQuote(ds, '"');
    Extend(d, p2, ds, "\"", dsd);
    PlainNest(dsd, z);
    Extend(d, p3, dsd, z, dsd);
    OneQuote(dsd, '"');
    Extend(d, p4, dsd, "\"", ds);
    PlainNest(ds, u);
    Extend(d, p5, ds, u, ds);
    OneQuote(ds, '\'');
    Extend(d, p6, ds, "'", d);
    PlainNest(d, v);
    Extend(d, p7, d, v, d);
  }

  /** Three levels of quotes: a double-quoted region holding a
      single-quoted part that holds a double-quoted part is one argument,
      with every inner quote kept. */
  lemma SplitThreeLevels(x: string, y: string, z: string, u: string, v: string)
    requires NoQuotes(x) && NoQuotes(y) && NoQuotes(z) && NoQuotes(u) && NoQuotes(v)
    requires '\\' !in x && '\\' !in y && '\\' !in z && '\\' !in u && '\\' !in v
    ensures SplitArguments(['"'] + (x + "'" + y + "\"" + z + "\"" + u + "'" + v) + ['"'])
              == [x + "'" + y + "\"" + z + "\"" + u + "'" + v]
  {
    var body := x + "'" + y + "\"" + z + "\"" + u + "'" + v;
    ThreeLevelsEnclosed(x, y, z, u, v);
    assert '\\' !in body;
    QuotedTextNoBackslash(['"'], body);
    SplitQuoted('"', body);
  }

  /** The three-level case on a concrete line: `"a 'b "c" d' e"` is the
      single argument `a 'b "c" d' e`. */
  lemma ThreeLevelsExample()
    ensures SplitArguments("\"a 'b \"c\" d' e\"") == ["a 'b \"c\" d' e"]
  {
    assert "\"a 'b \"c\" d' e\"" == ['"'] + ("a " + "'" + "b " + "\"" + "c" + "\"" + " d" + "'" + " e") + ['"'];
    assert "a 'b \"c\" d' e" == "a " + "'" + "b " + "\"" + "c" + "\"" + " d" + "'" + " e";
    SplitThreeLevels("a ", "b ", "c", " d", " e");
  }
}
