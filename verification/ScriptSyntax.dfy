/** The grammar that Shelllab/parse.c reads and print_script writes, on lines whose variables are still names. */
module ScriptSyntax {
  import opened Options

  predicate IsSpace(c: char) {
    c == ' ' || '\t' <= c <= '\r'
  }

  predicate IsDigit(c: char) { '0' <= c <= '9' }

  predicate IsAlnum(c: char) { IsDigit(c) || 'a' <= c <= 'z' || 'A' <= c <= 'Z' }

  // The characters a literal may hold outside quotes.
  predicate IsLetter(c: char) {
    IsAlnum(c) || c == '.' || c == ':' || c == '_' || c == '-' || c == '=' || c == '/'
  }

  // Where a literal or a variable may stop.
  predicate AtStop(s: string) { s == [] || IsSpace(s[0]) || s[0] == '|' }

  predicate Starts(s: string, c: char) { s != [] && s[0] == c }

  function SkipSpace(s: string): (r: string)
    ensures |r| <= |s| && (r == [] || !IsSpace(r[0]))
  {
    if s != [] && IsSpace(s[0]) then SkipSpace(s[1..]) else s
  }

  // -------------------------------------------------------------- literals

  datatype Read<T> = Read(value: T, rest: string)

  // Up to the closing quote.
  function ReadQuoted(s: string): (r: Option<Read<string>>)
    ensures r.Some? ==> |r.value.rest| < |s|
  {
    if s == [] then None
    else if s[0] == '"' then Some(Read("", s[1..]))
    else
      match ReadQuoted(s[1..])
      case None => None
      case Some(more) => Some(Read([s[0]] + more.value, more.rest))
  }

  function ReadLiteral(s: string): (r: Option<Read<string>>)
    ensures r.Some? ==> |r.value.rest| <= |s|
    decreases |s|
  {
    if Starts(s, '"') then
      match ReadQuoted(s[1..])
      case None => None
      case Some(quoted) =>
        match ReadLiteral(quoted.rest)
        case None => None
        case Some(more) => Some(Read(quoted.value + more.value, more.rest))
    else if s != [] && IsLetter(s[0]) then
      match ReadLiteral(s[1..])
      case None => None
      case Some(more) => Some(Read([s[0]] + more.value, more.rest))
    else if AtStop(s) then Some(Read("", s))
    else None
  }

  // A character that can stand in a line of a script.
  predicate IsText(c: char) { '\0' < c < 128 as char && c != '\n' }

  ghost predicate AllText(s: string) { forall i :: 0 <= i < |s| ==> IsText(s[i]) }

  ghost predicate CleanLiteral(text: string) {
    AllText(text) && forall i :: 0 <= i < |text| ==> text[i] != '"'
  }

  lemma {:induction false} SkipKeepsText(s: string)
    requires AllText(s)
    ensures AllText(SkipSpace(s))
  {
    if s != [] && IsSpace(s[0]) { SkipKeepsText(s[1..]); }
  }

  lemma {:induction false} ReadQuotedBack(text: string, tail: string)
    requires forall i :: 0 <= i < |text| ==> text[i] != '"'
    ensures ReadQuoted(text + "\"" + tail) == Some(Read(text, tail))
  {
    var s := text + "\"" + tail;
    if text == [] {
      assert s[1..] == tail;
    } else {
      ReadQuotedBack(text[1..], tail);
      assert s[1..] == text[1..] + "\"" + tail;
      assert [text[0]] + text[1..] == text;
    }
  }

  function Quote(text: string): string { "\"" + text + "\"" }

  lemma {:induction false} ReadLiteralBack(text: string, tail: string)
    requires CleanLiteral(text) && AtStop(tail)
    ensures ReadLiteral(Quote(text) + tail) == Some(Read(text, tail))
  {
    var s := Quote(text) + tail;
    assert s[1..] == text + "\"" + tail;
    ReadQuotedBack(text, tail);
    assert text + "" == text;
    assert !Starts(tail, '"') && (tail == [] || !IsLetter(tail[0]));
  }

  lemma {:induction false} QuotedIsClean(s: string)
    requires AllText(s) && ReadQuoted(s).Some?
    ensures CleanLiteral(ReadQuoted(s).value.value) && AllText(ReadQuoted(s).value.rest)
  {
    if s[0] != '"' {
      QuotedIsClean(s[1..]);
    }
  }

  // What the parser takes for a literal never holds a quote, and it stops where a literal may stop.
  lemma {:induction false} LiteralIsClean(s: string)
    requires AllText(s) && ReadLiteral(s).Some?
    ensures CleanLiteral(ReadLiteral(s).value.value) && AllText(ReadLiteral(s).value.rest)
    ensures AtStop(ReadLiteral(s).value.rest)
    decreases |s|
  {
    if Starts(s, '"') {
      QuotedIsClean(s[1..]);
      LiteralIsClean(ReadQuoted(s[1..]).value.rest);
    } else if s != [] && IsLetter(s[0]) {
      LiteralIsClean(s[1..]);
    }
  }

  // ------------------------------------------------------------- variables

  function NameLength(s: string): (n: nat)
    ensures n <= |s| && (n < |s| ==> !IsAlnum(s[n])) && forall i :: 0 <= i < n ==> IsAlnum(s[i])
  {
    if s == [] || !IsAlnum(s[0]) then 0 else 1 + NameLength(s[1..])
  }

  // A variable, from its dollar sign on.
  function ReadVariable(s: string): (r: Option<Read<string>>)
    requires Starts(s, '$')
    ensures r.Some? ==> |r.value.rest| < |s|
  {
    var n := NameLength(s[1..]);
    if n == 0 || !AtStop(s[1 + n..]) then None else Some(Read(s[1..1 + n], s[1 + n..]))
  }

  predicate CleanName(name: string) {
    name != [] && forall i :: 0 <= i < |name| ==> IsAlnum(name[i])
  }

  lemma {:induction false} NameLengthIs(s: string, n: nat)
    requires n <= |s| && (n < |s| ==> !IsAlnum(s[n])) && forall i :: 0 <= i < n ==> IsAlnum(s[i])
    ensures NameLength(s) == n
  {
  }

  lemma {:induction false} ReadVariableBack(name: string, tail: string)
    requires CleanName(name) && AtStop(tail)
    ensures ReadVariable("$" + name + tail) == Some(Read(name, tail))
  {
    var s := "$" + name + tail;
    assert s[1..] == name + tail;
    NameLengthIs(name + tail, |name|);
    assert s[1..1 + |name|] == name && s[1 + |name|..] == tail;
  }

  lemma {:induction false} VariableIsClean(s: string)
    requires AllText(s) && Starts(s, '$') && ReadVariable(s).Some?
    ensures AllText(ReadVariable(s).value.rest)
    ensures CleanName(ReadVariable(s).value.value) && AtStop(ReadVariable(s).value.rest)
  {
  }

  // -------------------------------------------------------------- commands

  // V is a name in a line that has just been read, and an index into the table of variables later on.
  datatype Argument<V> = Literal(text: string) | Variable(v: V)

  datatype Command<V> = Command(program: string, arguments: seq<Argument<V>>, pidTo: Option<V>)

  type Named = Argument<string>

  // The arguments of a command and the variable after its at sign.
  datatype Tail = Tail(arguments: seq<Named>, pidTo: Option<string>)

  function Prepend(argument: Named, more: Option<Read<Tail>>): Option<Read<Tail>> {
    match more
    case None => None
    case Some(read) => Some(Read(Tail([argument] + read.value.arguments, read.value.pidTo), read.rest))
  }

  function ReadPidTo(s: string): (r: Option<Read<Tail>>)
    ensures r.Some? ==> |r.value.rest| <= |s|
  {
    var b := SkipSpace(s);
    if !Starts(b, '$') then None
    else
      match ReadVariable(b)
      case None => None
      case Some(read) =>
        var rest := SkipSpace(read.rest);
        if AtStop(rest) then Some(Read(Tail([], Some(read.value)), rest)) else None
  }

  function ReadArguments(s: string): (r: Option<Read<Tail>>)
    ensures r.Some? ==> |r.value.rest| <= |s|
    decreases |s|
  {
    var b := SkipSpace(s);
    if Starts(b, '$') then
      match ReadVariable(b)
      case None => None
      case Some(read) => Prepend(Variable(read.value), ReadArguments(read.rest))
    else if Starts(b, '@') then ReadPidTo(b[1..])
    else
      match ReadLiteral(b)
      case None => None
      case Some(read) =>
        if |read.rest| == |b| then Some(Read(Tail([], None), b))
        else Prepend(Literal(read.value), ReadArguments(read.rest))
  }

  function ReadCommand(s: string): (r: Option<Read<Command<string>>>)
    ensures r.Some? ==> |r.value.rest| < |s|
  {
    match ReadLiteral(s)
    case None => None
    case Some(program) =>
      if |program.rest| == |s| then None
      else
        match ReadArguments(program.rest)
        case None => None
        case Some(read) =>
          Some(Read(Command(program.value, read.value.arguments, read.value.pidTo), read.rest))
  }

  function PrintArgument(a: Named): string {
    match a
    case Literal(text) => " " + Quote(text)
    case Variable(name) => " $" + name
  }

  function PrintArguments(arguments: seq<Named>, pidTo: Option<string>): string {
    if arguments == [] then if pidTo.None? then "" else " @ $" + pidTo.value
    else PrintArgument(arguments[0]) + PrintArguments(arguments[1..], pidTo)
  }

  function PrintCommand(c: Command<string>): string {
    Quote(c.program) + PrintArguments(c.arguments, c.pidTo)
  }

  ghost predicate CleanArgument(a: Named) {
    match a
    case Literal(text) => CleanLiteral(text)
    case Variable(name) => CleanName(name)
  }

  ghost predicate CleanTail(arguments: seq<Named>, pidTo: Option<string>) {
    (forall i :: 0 <= i < |arguments| ==> CleanArgument(arguments[i])) && (pidTo.Some? ==> CleanName(pidTo.value))
  }

  // What may follow a printed command: nothing, or a space and a combiner.
  predicate Closed(tail: string) {
    tail == [] || (|tail| > 1 && tail[0] == ' ' && tail[1] == '|')
  }

  lemma {:induction false} SkipOne(s: string)
    requires s == [] || !IsSpace(s[0])
    ensures SkipSpace(" " + s) == s
  {
  }

  lemma {:induction false} NoSkip(s: string)
    requires s == [] || !IsSpace(s[0])
    ensures SkipSpace(s) == s
  {
  }

  lemma {:induction false} ClosedRest(tail: string)
    requires Closed(tail)
    ensures var b := SkipSpace(tail); AtStop(tail) && AtStop(b) && b == if tail == [] then [] else tail[1..]
    ensures ReadArguments(tail) == Some(Read(Tail([], None), SkipSpace(tail)))
  {
  }

  lemma {:induction false} ReadPidToBack(name: string, tail: string)
    requires CleanName(name) && Closed(tail)
    ensures ReadArguments(" @ $" + name + tail) == Some(Read(Tail([], Some(name)), SkipSpace(tail)))
  {
    var v := "$" + name + tail;
    var at := "@ $" + name + tail;
    assert " @ $" + name + tail == " " + at;
    SkipOne(at);
    assert at[1..] == " " + v;
    SkipOne(v);
    ClosedRest(tail);
    ReadVariableBack(name, tail);
  }

  lemma {:induction false} PrintedStop(arguments: seq<Named>, pidTo: Option<string>, tail: string)
    requires Closed(tail)
    ensures AtStop(PrintArguments(arguments, pidTo) + tail)
  {
  }

  // Reading printed arguments gives them back, and stops at the combiner or the end of the line.
  lemma {:induction false} ReadArgumentsBack(arguments: seq<Named>, pidTo: Option<string>, tail: string)
    requires CleanTail(arguments, pidTo) && Closed(tail)
    ensures ReadArguments(PrintArguments(arguments, pidTo) + tail) ==
            Some(Read(Tail(arguments, pidTo), SkipSpace(tail)))
    decreases |arguments|
  {
    hide ReadArguments, PrintArgument, SkipSpace, AtStop;
    if arguments == [] {
      if pidTo.Some? {
        ReadPidToBack(pidTo.value, tail);
      } else {
        ClosedRest(tail);
        assert [] + tail == tail;
      }
    } else {
      var more := PrintArguments(arguments[1..], pidTo) + tail;
      ReadArgumentsBack(arguments[1..], pidTo, tail);
      PrintedStop(arguments[1..], pidTo, tail);
      ReadArgumentBack(arguments[0], more);
      assert PrintArguments(arguments, pidTo) + tail == PrintArgument(arguments[0]) + more;
      assert [arguments[0]] + arguments[1..] == arguments;
    }
  }

  lemma {:induction false} ReadArgumentBack(a: Named, more: string)
    requires CleanArgument(a) && AtStop(more)
    ensures ReadArguments(PrintArgument(a) + more) == Prepend(a, ReadArguments(more))
  {
    match a
    case Literal(text) =>
      var b := Quote(text) + more;
      assert PrintArgument(a) + more == " " + b;
      SkipOne(b);
      ReadLiteralBack(text, more);
    case Variable(name) =>
      var b := "$" + name + more;
      assert PrintArgument(a) + more == " " + b;
      SkipOne(b);
      ReadVariableBack(name, more);
  }

  ghost predicate CleanCommand(c: Command<string>) {
    CleanLiteral(c.program) && CleanTail(c.arguments, c.pidTo)
  }

  lemma {:induction false} ReadCommandBack(c: Command<string>, tail: string)
    requires CleanCommand(c) && Closed(tail)
    ensures ReadCommand(PrintCommand(c) + tail) == Some(Read(c, SkipSpace(tail)))
  {
    var more := PrintArguments(c.arguments, c.pidTo) + tail;
    PrintedStop(c.arguments, c.pidTo, tail);
    assert PrintCommand(c) + tail == Quote(c.program) + more;
    ReadLiteralBack(c.program, more);
    ReadArgumentsBack(c.arguments, c.pidTo, tail);
  }

  // What the parser takes for a command is one that can be printed, and it stops at a combiner or the end.
  lemma {:induction false} ArgumentsAreClean(s: string)
    requires AllText(s) && ReadArguments(s).Some?
    ensures var r := ReadArguments(s).value;
      && CleanTail(r.value.arguments, r.value.pidTo) && AllText(r.rest)
      && AtStop(r.rest) && (r.rest == [] || !IsSpace(r.rest[0]))
    decreases |s|
  {
    var b := SkipSpace(s);
    SkipKeepsText(s);
    if Starts(b, '$') {
      VariableIsClean(b);
      ArgumentsAreClean(ReadVariable(b).value.rest);
    } else if Starts(b, '@') {
      SkipKeepsText(b[1..]);
      var v := SkipSpace(b[1..]);
      VariableIsClean(v);
      SkipKeepsText(ReadVariable(v).value.rest);
    } else {
      LiteralIsClean(b);
      if |ReadLiteral(b).value.rest| < |b| {
        ArgumentsAreClean(ReadLiteral(b).value.rest);
      } else {
        NothingRead(b);
      }
    }
  }

  lemma {:induction false} NothingRead(b: string)
    requires ReadLiteral(b).Some? && |ReadLiteral(b).value.rest| == |b|
    ensures ReadLiteral(b) == Some(Read("", b))
  {
  }

  lemma {:induction false} CommandIsClean(s: string)
    requires AllText(s) && ReadCommand(s).Some?
    ensures CleanCommand(ReadCommand(s).value.value) && AllText(ReadCommand(s).value.rest)
    ensures var rest := ReadCommand(s).value.rest; rest == [] || rest[0] == '|'
  {
    LiteralIsClean(s);
    ArgumentsAreClean(ReadLiteral(s).value.rest);
  }

  // ---------------------------------------------------------------- groups

  datatype Mode = Single | And | Or

  datatype Group<V> = Group(mode: Mode, repeats: nat, resultTo: Option<V>, commands: seq<Command<V>>)

  datatype Commands = Commands(mode: Mode, commands: seq<Command<string>>)

  function ReadCommands(s: string, mode: Mode): Option<Commands>
    decreases |s|
  {
    match ReadCommand(s)
    case None => None
    case Some(read) =>
      var b := SkipSpace(read.rest);
      if b == [] then Some(Commands(mode, [read.value]))
      else if b[0] != '|' then None
      else
        var or := |b| > 1 && b[1] == '|';
        var rest := SkipSpace(b[if or then 2 else 1..]);
        if mode == (if or then And else Or) || rest == [] then None
        else
          match ReadCommands(rest, if or then Or else And)
          case None => None
          case Some(more) => Some(Commands(more.mode, [read.value] + more.commands))
  }

  function Combiner(mode: Mode): string {
    if mode == And then " | " else " || "
  }

  function PrintCommands(mode: Mode, commands: seq<Command<string>>): string {
    if commands == [] then ""
    else if |commands| == 1 then PrintCommand(commands[0])
    else PrintCommand(commands[0]) + Combiner(mode) + PrintCommands(mode, commands[1..])
  }

  ghost predicate CleanCommands(mode: Mode, commands: seq<Command<string>>) {
    && commands != [] && (mode == Single <==> |commands| == 1)
    && forall i :: 0 <= i < |commands| ==> CleanCommand(commands[i])
  }

  lemma {:induction false} CommandStart(mode: Mode, commands: seq<Command<string>>)
    requires commands != []
    ensures PrintCommands(mode, commands) != [] && PrintCommands(mode, commands)[0] == '"'
  {
  }

  lemma {:induction false} SkipCombiner(mode: Mode, more: string)
    requires more != [] && more[0] == '"'
    ensures var b := SkipSpace(Combiner(mode) + more);
      && b != [] && b[0] == '|' && (mode != And <==> |b| > 1 && b[1] == '|')
      && SkipSpace(b[if mode == And then 1 else 2..]) == more
  {
  }

  lemma {:induction false} ReadCommandsBack(mode: Mode, commands: seq<Command<string>>, now: Mode)
    requires commands != [] && forall i :: 0 <= i < |commands| ==> CleanCommand(commands[i])
    requires if |commands| == 1 then now == mode else mode != Single && (now == Single || now == mode)
    ensures ReadCommands(PrintCommands(mode, commands), now) == Some(Commands(mode, commands))
    decreases |commands|
  {
    hide ReadCommand, SkipSpace, PrintCommand;
    if |commands| == 1 {
      ReadCommandBack(commands[0], "");
      assert PrintCommand(commands[0]) + "" == PrintCommand(commands[0]);
      SkipNothing();
      assert [commands[0]] == commands;
    } else {
      var more := PrintCommands(mode, commands[1..]);
      CommandStart(mode, commands[1..]);
      var tail := Combiner(mode) + more;
      assert PrintCommands(mode, commands) == PrintCommand(commands[0]) + tail;
      ReadCommandBack(commands[0], tail);
      SkipCombiner(mode, more);
      SkipTwice(tail);
      ReadCommandsBack(mode, commands[1..], mode);
      assert [commands[0]] + commands[1..] == commands;
    }
  }

  lemma {:induction false} SkipNothing()
    ensures SkipSpace("") == ""
  {
  }

  lemma {:induction false} SkipTwice(s: string)
    ensures SkipSpace(SkipSpace(s)) == SkipSpace(s)
  {
  }

  lemma {:induction false} CommandsAreClean(s: string, mode: Mode)
    requires AllText(s) && ReadCommands(s, mode).Some?
    ensures var c := ReadCommands(s, mode).value;
      && c.commands != [] && (forall i :: 0 <= i < |c.commands| ==> CleanCommand(c.commands[i]))
      && (if |c.commands| == 1 then c.mode == mode else c.mode != Single && (mode == Single || mode == c.mode))
    decreases |s|
  {
    hide ReadCommand, SkipSpace, CleanCommand;
    CommandIsClean(s);
    var b := SkipSpace(ReadCommand(s).value.rest);
    SkipKeepsText(ReadCommand(s).value.rest);
    if b != [] {
      var or := |b| > 1 && b[1] == '|';
      SkipKeepsText(b[if or then 2 else 1..]);
      CommandsAreClean(SkipSpace(b[if or then 2 else 1..]), if or then Or else And);
    }
  }

  // --------------------------------------------------------------- numbers

  // The digit loop of parse_group.
  function ReadNumber(s: string, acc: nat): (r: Read<nat>)
    ensures |r.rest| <= |s| && (r.rest == [] || !IsDigit(r.rest[0]))
    decreases |s|
  {
    if s != [] && IsDigit(s[0]) then ReadNumber(s[1..], acc * 10 + (s[0] as int - '0' as int))
    else Read(acc, s)
  }

  function Digit(d: nat): (c: char)
    requires d < 10
    ensures IsDigit(c) && c as int - '0' as int == d
  {
    ('0' as int + d) as char
  }

  // The decimal form that printf writes.
  function Decimal(n: nat): (s: string)
    ensures s != [] && IsDigit(s[0])
  {
    if n < 10 then [Digit(n)] else Decimal(n / 10) + [Digit(n % 10)]
  }

  lemma {:induction false} ReadNumberBack(n: nat, tail: string)
    ensures ReadNumber(Decimal(n) + tail, 0) == ReadNumber(tail, n)
  {
    if n < 10 {
      assert (Decimal(n) + tail)[1..] == tail;
    } else {
      var more := [Digit(n % 10)] + tail;
      ReadNumberBack(n / 10, more);
      assert Decimal(n) + tail == Decimal(n / 10) + more;
      assert more[1..] == tail;
      assert n / 10 * 10 + n % 10 == n;
    }
  }

  lemma {:induction false} NumberStops(s: string, n: nat)
    requires s == [] || !IsDigit(s[0])
    ensures ReadNumber(s, n) == Read(n, s)
  {
  }

  const REPEAT := "repeat "

  // The optional number of repetitions at the head of a group.
  function ReadRepeats(s: string): (r: Option<Read<nat>>)
    ensures r.Some? ==> |r.value.rest| <= |s|
  {
    if REPEAT <= s then
      var b := SkipSpace(s[|REPEAT|..]);
      if b == [] || !IsDigit(b[0]) then None
      else
        var number := ReadNumber(b, 0);
        if number.rest == [] || !IsSpace(number.rest[0]) then None
        else Some(Read(number.value, SkipSpace(number.rest)))
    else if s == "repeat" then None
    else Some(Read(1, s))
  }

  // The optional variable that takes the result of a group.
  function ReadResult(s: string): (r: Option<Read<Option<string>>>)
    ensures r.Some? ==> |r.value.rest| <= |s|
  {
    if Starts(s, '$') then
      match ReadVariable(s)
      case None => None
      case Some(name) =>
        var b := SkipSpace(name.rest);
        if Starts(b, '=') then Some(Read(Some(name.value), SkipSpace(b[1..]))) else None
    else Some(Read(None, s))
  }

  function ReadGroup(s: string): Option<Group<string>> {
    match ReadRepeats(SkipSpace(s))
    case None => None
    case Some(repeats) =>
      match ReadResult(repeats.rest)
      case None => None
      case Some(result) =>
        if result.rest == [] then None
        else
          match ReadCommands(result.rest, Single)
          case None => None
          case Some(c) => Some(Group(c.mode, repeats.value, result.value, c.commands))
  }

  function PrintRepeats(n: nat): string {
    if n == 1 then "" else REPEAT + Decimal(n) + " "
  }

  function PrintResult(resultTo: Option<string>): string {
    if resultTo.None? then "" else "$" + resultTo.value + " = "
  }

  function PrintGroup(g: Group<string>): string {
    PrintRepeats(g.repeats) + PrintResult(g.resultTo) + PrintCommands(g.mode, g.commands)
  }

  ghost predicate CleanGroup(g: Group<string>) {
    CleanCommands(g.mode, g.commands) && (g.resultTo.Some? ==> CleanName(g.resultTo.value))
  }

  lemma {:induction false} ReadRepeatsBack(n: nat, more: string)
    requires more != [] && (more[0] == '$' || more[0] == '"')
    ensures ReadRepeats(SkipSpace(PrintRepeats(n) + more)) == Some(Read(n, more))
  {
    hide SkipSpace, ReadNumber, Decimal;
    var s := PrintRepeats(n) + more;
    assert s[0] == if n == 1 then more[0] else 'r';
    NoSkip(s);
    if n == 1 {
      assert s == more;
    } else {
      var digits := Decimal(n) + (" " + more);
      assert s == REPEAT + digits;
      assert s[|REPEAT|..] == digits;
      NoSkip(digits);
      ReadNumberBack(n, " " + more);
      NumberStops(" " + more, n);
      SkipOne(more);
    }
  }

  lemma {:induction false} ReadResultBack(resultTo: Option<string>, more: string)
    requires more != [] && more[0] == '"' && (resultTo.Some? ==> CleanName(resultTo.value))
    ensures ReadResult(PrintResult(resultTo) + more) == Some(Read(resultTo, more))
  {
    hide SkipSpace, ReadVariable;
    if resultTo.None? {
      assert [] + more == more;
    } else {
      var tail := " = " + more;
      assert PrintResult(resultTo) + more == "$" + resultTo.value + tail;
      ReadVariableBack(resultTo.value, tail);
      var b := "= " + more;
      assert tail == " " + b;
      SkipOne(b);
      assert b[1..] == " " + more;
      SkipOne(more);
    }
  }

  // Reading a printed group gives it back.
  lemma {:induction false} ReadGroupBack(g: Group<string>)
    requires CleanGroup(g)
    ensures ReadGroup(PrintGroup(g)) == Some(g)
  {
    hide ReadRepeats, ReadResult, SkipSpace, PrintRepeats, PrintResult, PrintCommands, ReadCommands;
    var commands := PrintCommands(g.mode, g.commands);
    CommandStart(g.mode, g.commands);
    var more := PrintResult(g.resultTo) + commands;
    ResultStart(g.resultTo, commands);
    assert PrintGroup(g) == PrintRepeats(g.repeats) + more;
    ReadRepeatsBack(g.repeats, more);
    ReadResultBack(g.resultTo, commands);
    ReadCommandsBack(g.mode, g.commands, Single);
  }

  lemma {:induction false} ResultStart(resultTo: Option<string>, more: string)
    requires more != [] && more[0] == '"'
    ensures var s := PrintResult(resultTo) + more; s != [] && (s[0] == '$' || s[0] == '"')
  {
  }

  lemma {:induction false} NumberKeepsText(s: string, acc: nat)
    requires AllText(s)
    ensures AllText(ReadNumber(s, acc).rest)
    decreases |s|
  {
    if s != [] && IsDigit(s[0]) { NumberKeepsText(s[1..], acc * 10 + (s[0] as int - '0' as int)); }
  }

  lemma {:induction false} RepeatsKeepText(s: string)
    requires AllText(s) && ReadRepeats(s).Some?
    ensures AllText(ReadRepeats(s).value.rest)
  {
    if REPEAT <= s {
      SkipKeepsText(s[|REPEAT|..]);
      var b := SkipSpace(s[|REPEAT|..]);
      NumberKeepsText(b, 0);
      SkipKeepsText(ReadNumber(b, 0).rest);
    }
  }

  lemma {:induction false} ResultIsClean(s: string)
    requires AllText(s) && ReadResult(s).Some?
    ensures var r := ReadResult(s).value; AllText(r.rest) && (r.value.Some? ==> CleanName(r.value.value))
  {
    if Starts(s, '$') {
      VariableIsClean(s);
      var rest := ReadVariable(s).value.rest;
      SkipKeepsText(rest);
      SkipKeepsText(SkipSpace(rest)[1..]);
    }
  }

  // Every group the parser produces is one that can be printed and read back.
  lemma {:induction false} GroupIsClean(s: string)
    requires AllText(s) && ReadGroup(s).Some?
    ensures CleanGroup(ReadGroup(s).value)
  {
    hide ReadRepeats, ReadResult, SkipSpace, ReadCommands, CleanCommand, AllText;
    SkipKeepsText(s);
    RepeatsKeepText(SkipSpace(s));
    var repeats := ReadRepeats(SkipSpace(s)).value;
    ResultIsClean(repeats.rest);
    CommandsAreClean(ReadResult(repeats.rest).value.rest, Single);
  }

  // A printed group is a line of text.
  lemma {:induction false} DecimalIsText(n: nat)
    ensures AllText(Decimal(n))
  {
    if n >= 10 { DecimalIsText(n / 10); }
  }

  lemma {:induction false} ArgumentsAreText(arguments: seq<Named>, pidTo: Option<string>)
    requires CleanTail(arguments, pidTo)
    ensures AllText(PrintArguments(arguments, pidTo))
    decreases |arguments|
  {
    if arguments != [] {
      ArgumentIsText(arguments[0]);
      ArgumentsAreText(arguments[1..], pidTo);
    } else if pidTo.Some? {
      assert AllText(" @ $") && AllText(pidTo.value);
    }
  }

  lemma {:induction false} ArgumentIsText(a: Named)
    requires CleanArgument(a)
    ensures AllText(PrintArgument(a))
  {
  }

  lemma {:induction false} CommandsAreText(mode: Mode, commands: seq<Command<string>>)
    requires forall i :: 0 <= i < |commands| ==> CleanCommand(commands[i])
    ensures AllText(PrintCommands(mode, commands))
    decreases |commands|
  {
    if commands != [] {
      ArgumentsAreText(commands[0].arguments, commands[0].pidTo);
      assert AllText("\"") && AllText(Quote(commands[0].program));
      assert AllText(PrintCommand(commands[0]));
      assert AllText(Combiner(mode));
      CommandsAreText(mode, commands[1..]);
    }
  }

  lemma {:induction false} PrintedIsText(g: Group<string>)
    requires CleanGroup(g)
    ensures AllText(PrintGroup(g))
  {
    hide CleanCommand, PrintCommands;
    DecimalIsText(g.repeats);
    assert AllText(REPEAT) && AllText(" ") && AllText("$") && AllText(" = ");
    assert AllText(PrintRepeats(g.repeats));
    if g.resultTo.Some? { assert AllText(g.resultTo.value); }
    assert AllText(PrintResult(g.resultTo));
    CommandsAreText(g.mode, g.commands);
  }

  // It is neither a comment nor empty.
  lemma {:induction false} PrintedIsRead(g: Group<string>)
    requires CleanGroup(g)
    ensures var s := PrintGroup(g); SkipSpace(s) == s && s != [] && s[0] != '#'
  {
  }
}
