/** The parser of Shelllab/parse.c and its printer: a cursor over one line at a time, and the table of variables
    that lives across lines. */
module ScriptParser {
  import opened Options
  import opened ScriptSyntax
  import opened ScriptTable

  // The character at the cursor; a NUL ends the line.
  function At(line: string, pos: nat): char {
    if pos < |line| then line[pos] else '\0'
  }

  ghost predicate Buffered(line: string) {
    IsLine(line) && |line| < MAX_LINE_LENGTH - 1
  }

  function Prefixed(text: string, r: Option<Read<string>>): Option<Read<string>> {
    match r
    case None => None
    case Some(read) => Some(Read(text + read.value, read.rest))
  }

  lemma {:induction false} Suffix(line: string, pos: nat)
    requires pos < |line|
    ensures line[pos..] != [] && line[pos..][0] == line[pos] && line[pos..][1..] == line[pos + 1..]
  {
  }

  lemma {:induction false} PrefixedTwice(a: string, b: string, r: Option<Read<string>>)
    ensures Prefixed(a, Prefixed(b, r)) == Prefixed(a + b, r)
  {
    if r.Some? { assert a + (b + r.value.value) == a + b + r.value.value; }
  }

  lemma {:induction false} PrefixedNothing(r: Option<Read<string>>)
    ensures Prefixed("", r) == r
  {
    if r.Some? { assert "" + r.value.value == r.value.value; }
  }

  // skip_space
  method Skip(line: string, pos: nat) returns (next: nat)
    requires Buffered(line) && pos <= |line|
    ensures pos <= next <= |line| && line[next..] == SkipSpace(line[pos..])
  {
    next := pos;
    while IsSpace(At(line, next))
      invariant pos <= next <= |line| && SkipSpace(line[next..]) == SkipSpace(line[pos..])
      decreases |line| - next
    {
      Suffix(line, next);
      next := next + 1;
    }
  }

  // A buffer that begins with some text.
  ghost predicate Begins(buffer: seq<char>, text: string) { text <= buffer }

  lemma {:induction false} BeginsMore(buffer: seq<char>, text: string, c: char)
    requires Begins(buffer, text) && |text| < |buffer|
    ensures Begins(buffer[|text| := c], text + [c])
  {
  }

  // The inner loop of parse_literal: the characters up to the closing quote go to the buffer.
  method ParseQuoted(line: string, pos: nat, buffer: array<char>, start: nat, ghost before: string)
      returns (ok: bool, len: nat)
    requires Buffered(line) && pos <= |line| && buffer.Length == MAX_LINE_LENGTH
    requires start == |before| <= pos && Begins(buffer[..], before)
    modifies buffer
    ensures ok <==> ReadQuoted(line[pos..]).Some?
    ensures ok ==> var read := ReadQuoted(line[pos..]).value;
                   && pos + len < |line| && read.rest == line[pos + len + 1..]
                   && |read.value| == len && Begins(buffer[..], before + read.value)
  {
    hide Begins, ReadQuoted, Prefixed;
    len := 0;
    ghost var text := "";
    assert before + text == before;
    PrefixedNothing(ReadQuoted(line[pos..]));
    while At(line, pos + len) != '"'
      invariant pos + len <= |line| && |text| == len && Begins(buffer[..], before + text)
      invariant ReadQuoted(line[pos..]) == Prefixed(text, ReadQuoted(line[pos + len..]))
      decreases |line| - len
    {
      QuotedStep(line, pos + len, text);
      if pos + len == |line| {
        return false, len;
      }
      var c := line[pos + len];
      BeginsMore(buffer[..], before + text, c);
      buffer[start + len] := c;
      assert before + (text + [c]) == before + text + [c];
      text := text + [c];
      len := len + 1;
    }
    QuotedStep(line, pos + len, text);
    ok := true;
  }

  lemma {:induction false} QuotedStep(line: string, at: nat, text: string)
    requires at <= |line|
    ensures at == |line| ==> Prefixed(text, ReadQuoted(line[at..])) == None
    ensures at < |line| && line[at] == '"' ==>
              Prefixed(text, ReadQuoted(line[at..])) == Some(Read(text, line[at + 1..]))
    ensures at < |line| && line[at] != '"' ==>
              Prefixed(text, ReadQuoted(line[at..])) == Prefixed(text + [line[at]], ReadQuoted(line[at + 1..]))
  {
    if at < |line| {
      Suffix(line, at);
      PrefixedTwice(text, [line[at]], ReadQuoted(line[at + 1..]));
      assert text + "" == text;
    }
  }

  // parse_literal: the unquoted text, and how far it reached.  The buffer is long enough for any line.
  method ParseLiteral(line: string, pos: nat) returns (ok: bool, len: nat, literal: string)
    requires Buffered(line) && pos <= |line|
    ensures ok <==> ReadLiteral(line[pos..]).Some?
    ensures ok ==> pos + len <= |line| && ReadLiteral(line[pos..]) == Some(Read(literal, line[pos + len..]))
  {
    hide ReadLiteral, Prefixed, Begins, ReadQuoted;
    var litBuffer := new char[MAX_LINE_LENGTH];
    var litLen := 0;
    len := 0;
    ghost var text := "";
    PrefixedNothing(ReadLiteral(line[pos..]));
    BeginsNothing(litBuffer[..]);
    while IsLetter(At(line, pos + len)) || At(line, pos + len) == '"'
      invariant 0 <= litLen == |text| <= len && pos + len <= |line| && Begins(litBuffer[..], text)
      invariant ReadLiteral(line[pos..]) == Prefixed(text, ReadLiteral(line[pos + len..]))
      decreases |line| - len
    {
      if line[pos + len] == '"' {
        len := len + 1;
        var closed, more := ParseQuoted(line, pos + len, litBuffer, litLen, text);
        LiteralQuoted(line, pos + len, text, if closed then more else 0);
        if !closed {
          return false, len, "";
        }
        text := text + ReadQuoted(line[pos + len..]).value.value;
        litLen := litLen + more;
        len := len + more + 1;
      } else {
        LiteralLetter(line, pos + len, text);
        BeginsMore(litBuffer[..], text, line[pos + len]);
        litBuffer[litLen] := line[pos + len];
        text := text + [line[pos + len]];
        litLen := litLen + 1;
        len := len + 1;
      }
    }
    BeginsText(litBuffer[..], text);
    litBuffer[litLen] := '\0';
    literal := litBuffer[..litLen];
    LiteralStops(line, pos + len, text);
    ok := pos + len == |line| || IsSpace(line[pos + len]) || line[pos + len] == '|';
  }

  lemma {:induction false} BeginsNothing(buffer: seq<char>)
    ensures Begins(buffer, "")
  {
  }

  lemma {:induction false} BeginsText(buffer: seq<char>, text: string)
    requires Begins(buffer, text)
    ensures |text| <= |buffer| && buffer[..|text|] == text
  {
  }

  lemma {:induction false} LiteralQuoted(line: string, at: nat, text: string, len: nat)
    requires 0 < at <= |line| && line[at - 1] == '"'
    requires ReadQuoted(line[at..]).Some? ==>
               at + len < |line| && ReadQuoted(line[at..]).value.rest == line[at + len + 1..]
    ensures ReadQuoted(line[at..]).None? ==> Prefixed(text, ReadLiteral(line[at - 1..])) == None
    ensures ReadQuoted(line[at..]).Some? ==>
              Prefixed(text, ReadLiteral(line[at - 1..])) ==
              Prefixed(text + ReadQuoted(line[at..]).value.value, ReadLiteral(line[at + len + 1..]))
  {
    Suffix(line, at - 1);
    if ReadQuoted(line[at..]).Some? {
      PrefixedTwice(text, ReadQuoted(line[at..]).value.value, ReadLiteral(line[at + len + 1..]));
    }
  }

  lemma {:induction false} LiteralLetter(line: string, at: nat, text: string)
    requires at < |line| && IsLetter(line[at])
    ensures Prefixed(text, ReadLiteral(line[at..])) == Prefixed(text + [line[at]], ReadLiteral(line[at + 1..]))
  {
    Suffix(line, at);
    PrefixedTwice(text, [line[at]], ReadLiteral(line[at + 1..]));
  }

  lemma {:induction false} LiteralStops(line: string, at: nat, text: string)
    requires IsLine(line) && at <= |line| && !IsLetter(At(line, at)) && At(line, at) != '"'
    ensures Prefixed(text, ReadLiteral(line[at..])) ==
            if at == |line| || IsSpace(line[at]) || line[at] == '|' then Some(Read(text, line[at..])) else None
  {
    if at < |line| { Suffix(line, at); }
    assert text + "" == text;
  }

  // The arguments read so far, before what the rest of the line holds.
  function Following(done: seq<Named>, r: Option<Read<Tail>>): Option<Read<Tail>> {
    match r
    case None => None
    case Some(read) => Some(Read(Tail(done + read.value.arguments, read.value.pidTo), read.rest))
  }

  lemma {:induction false} FollowingMore(done: seq<Named>, a: Named, r: Option<Read<Tail>>)
    ensures Following(done, Prepend(a, r)) == Following(done + [a], r)
  {
    if r.Some? {
      assert done + ([a] + r.value.value.arguments) == done + [a] + r.value.value.arguments;
    }
  }

  lemma {:induction false} FollowingNothing(r: Option<Read<Tail>>)
    ensures Following([], r) == r
  {
    if r.Some? { assert [] + r.value.value.arguments == r.value.value.arguments; }
  }

  lemma {:induction false} VariableNext(s: string, b: string, done: seq<Named>)
    requires b == SkipSpace(s) && Starts(b, '$')
    ensures Following(done, ReadArguments(s)) ==
            match ReadVariable(b)
            case None => None
            case Some(read) => Following(done + [Variable(read.value)], ReadArguments(read.rest))
  {
    if ReadVariable(b).Some? {
      var read := ReadVariable(b).value;
      FollowingMore(done, Variable(read.value), ReadArguments(read.rest));
    }
  }

  lemma {:induction false} LiteralNext(s: string, b: string, done: seq<Named>)
    requires b == SkipSpace(s) && !Starts(b, '$') && !Starts(b, '@')
    ensures Following(done, ReadArguments(s)) ==
            match ReadLiteral(b)
            case None => None
            case Some(read) =>
              if |read.rest| == |b| then Some(Read(Tail(done, None), b))
              else Following(done + [Literal(read.value)], ReadArguments(read.rest))
  {
    if ReadLiteral(b).Some? {
      var read := ReadLiteral(b).value;
      if |read.rest| == |b| {
        assert done + [] == done;
      } else {
        FollowingMore(done, Literal(read.value), ReadArguments(read.rest));
      }
    }
  }

  // An at sign ends the command.
  lemma {:induction false} PidToNext(s: string, b: string, done: seq<Named>)
    requires b == SkipSpace(s) && Starts(b, '@')
    ensures Following(done, ReadArguments(s)) ==
            match ReadPidTo(b[1..])
            case None => None
            case Some(read) => Some(Read(Tail(done, read.value.pidTo), read.rest))
  {
    assert done + [] == done;
  }

  lemma {:induction false} ResolveMore(done: seq<Named>, a: Named, table: Table)
    ensures var (r, t1) := ResolveArguments(done, table);
      var (x, t2) := ResolveArgument(a, t1);
      ResolveArguments(done + [a], table) == (r + [x], t2)
    decreases |done|
  {
    if done == [] {
      var (x, t2) := ResolveArgument(a, table);
      assert done + [a] == [a];
      assert [a][1..] == [];
      assert [x] + [] == [] + [x];
    } else {
      var (first, t) := ResolveArgument(done[0], table);
      ResolveMore(done[1..], a, t);
      assert (done + [a])[1..] == done[1..] + [a];
      var (r, t1) := ResolveArguments(done[1..], t);
      var x := ResolveArgument(a, t1).0;
      assert [first] + (r + [x]) == [first] + r + [x];
    }
  }

  lemma {:induction false} VariableAt(line: string, pos: nat, len: nat)
    requires pos + 1 + len <= |line| && line[pos] == '$'
    requires var rest := line[pos + 1..];
      (forall i :: 0 <= i < len ==> IsAlnum(rest[i])) && (len < |rest| ==> !IsAlnum(rest[len]))
    ensures var next := pos + 1 + len;
      ReadVariable(line[pos..]) ==
      if len == 0 || (next < |line| && !IsSpace(line[next]) && line[next] != '|') then None
      else Some(Read(line[pos + 1..next], line[next..]))
  {
    hide NameLength;
    Suffix(line, pos);
    NameLengthIs(line[pos + 1..], len);
    assert line[pos..][1 + len..] == line[pos + len + 1..];
    assert line[pos..][1..1 + len] == line[pos + 1..pos + 1 + len];
  }

  class Parser {
    var vars: Table

    constructor ()
      ensures vars == [] && CleanTable(vars)
    {
      vars := [];
    }

    // The search loop of parse_variable; a name that is not there gets a new entry.
    method Lookup(name: string) returns (id: nat)
      modifies this
      ensures (vars, id) == Intern(old(vars), name)
    {
      var i := 0;
      while i < |vars|
        invariant 0 <= i <= |vars| && forall j :: 0 <= j < i ==> !(name <= vars[j])
      {
        if name <= vars[i] {
          FindIs(vars, name, i);
          return i;
        }
        i := i + 1;
      }
      FindIs(vars, name, i);
      vars := vars + [name];
      return i;
    }

    // parse_variable
    method ParseVariable(line: string, pos: nat) returns (ok: bool, id: nat, next: nat)
      requires Buffered(line) && pos < |line| && line[pos] == '$'
      modifies this
      ensures ok <==> ReadVariable(line[pos..]).Some?
      ensures ok ==> var read := ReadVariable(line[pos..]).value;
                     && pos < next <= |line| && read.rest == line[next..]
                     && (vars, id) == Intern(old(vars), read.value)
    {
      hide Intern, ReadVariable;
      ghost var rest := line[pos + 1..];
      var len := 0;
      while IsAlnum(At(line, pos + len + 1))
        invariant len <= |rest| && forall i :: 0 <= i < len ==> IsAlnum(rest[i])
        decreases |line| - len
      {
        assert line[pos + len + 1] == rest[len];
        len := len + 1;
      }
      assert len < |rest| ==> line[pos + len + 1] == rest[len];
      VariableAt(line, pos, len);
      id, next := 0, pos + len + 1;
      if len == 0 || (next < |line| && !IsSpace(line[next]) && line[next] != '|') {
        return false, id, next;
      }
      id := Lookup(line[pos + 1..pos + 1 + len]);
      ok := true;
    }

    // The variable after an at sign, which must be the last thing in a command.
    method ParsePidTo(line: string, pos: nat) returns (ok: bool, id: nat, next: nat)
      requires Buffered(line) && pos <= |line|
      modifies this
      ensures ok <==> ReadPidTo(line[pos..]).Some?
      ensures ok ==> var read := ReadPidTo(line[pos..]).value;
                     && next <= |line| && read.rest == line[next..] && read.value.arguments == []
                     && (Some(id), vars) == InternOption(read.value.pidTo, old(vars))
    {
      hide ReadVariable, SkipSpace, Intern;
      id := 0;
      next := Skip(line, pos);
      assert Starts(line[next..], '$') <==> At(line, next) == '$';
      if At(line, next) != '$' {
        return false, id, next;
      }
      ok, id, next := ParseVariable(line, next);
      if !ok {
        return false, id, next;
      }
      next := Skip(line, next);
      ok := next == |line| || IsSpace(line[next]) || line[next] == '|';
    }

    // The loop of parse_command.
    method ParseArguments(line: string, start: nat)
        returns (ok: bool, arguments: seq<Argument<nat>>, pidTo: Option<nat>, pos: nat)
      requires Buffered(line) && start <= |line|
      modifies this
      ensures ok <==> ReadArguments(line[start..]).Some?
      ensures ok ==> var read := ReadArguments(line[start..]).value;
                     && pos <= |line| && read.rest == line[pos..]
                     && var (r, t) := ResolveArguments(read.value.arguments, old(vars));
                     r == arguments && (pidTo, vars) == InternOption(read.value.pidTo, t)
    {
      hide ReadArguments, ReadVariable, ReadLiteral, ReadPidTo, SkipSpace, ResolveArguments, Intern, Following;
      ghost var done: seq<Named> := [];
      arguments, pidTo, pos := [], None, start;
      FollowingNothing(ReadArguments(line[start..]));
      ResolveNothing(vars);
      while true
        invariant start <= pos <= |line|
        invariant Following([], ReadArguments(line[start..])) == Following(done, ReadArguments(line[pos..]))
        invariant (arguments, vars) == ResolveArguments(done, old(vars))
        decreases |line| - pos
      {
        ghost var s := line[pos..];
        pos := Skip(line, pos);
        ghost var b := line[pos..];
        assert b == [] || b[0] == line[pos];
        assert Starts(b, '$') <==> At(line, pos) == '$';
        assert Starts(b, '@') <==> At(line, pos) == '@';
        var a;
        if At(line, pos) == '$' {
          VariableNext(s, b, done);
          var id;
          ok, id, pos := ParseVariable(line, pos);
          if !ok { return; }
          a := Variable(id);
          ghost var name := ReadVariable(b).value.value;
          ResolveMore(done, Variable(name), old(vars));
          done := done + [Variable(name)];
        } else if At(line, pos) == '@' {
          PidToNext(s, b, done);
          assert b[1..] == line[pos + 1..];
          var id;
          ok, id, pos := ParsePidTo(line, pos + 1);
          pidTo := Some(id);
          return;
        } else {
          LiteralNext(s, b, done);
          var len, literal;
          ok, len, literal := ParseLiteral(line, pos);
          if !ok { return; }
          if len == 0 { break; }
          pos := pos + len;
          a := Literal(literal);
          ResolveMore(done, Literal(literal), old(vars));
          done := done + [Literal(literal)];
        }
        arguments := arguments + [a];
      }
    }

    // parse_command
    method ParseCommand(line: string, pos: nat) returns (ok: bool, command: Command<nat>, next: nat)
      requires Buffered(line) && pos <= |line|
      modifies this
      ensures ok <==> ReadCommand(line[pos..]).Some?
      ensures ok ==> var read := ReadCommand(line[pos..]).value;
                     && pos < next <= |line| && read.rest == line[next..]
                     && (command, vars) == ResolveCommand(read.value, old(vars))
    {
      hide ReadArguments, ReadLiteral, SkipSpace, ResolveArguments, Intern;
      command, next := Command("", [], None), pos;
      var len, program;
      ok, len, program := ParseLiteral(line, pos);
      if !ok || len == 0 {
        return false, command, next;
      }
      var arguments, pidTo;
      ok, arguments, pidTo, next := ParseArguments(line, pos + len);
      command := Command(program, arguments, pidTo);
    }

    // The loop of parse_group over commands and the combiners between them.
    method ParseCommands(line: string, start: nat) returns (ok: bool, mode: Mode, commands: seq<Command<nat>>)
      requires Buffered(line) && start <= |line|
      modifies this
      ensures ok <==> ReadCommands(line[start..], Single).Some?
      ensures ok ==> var read := ReadCommands(line[start..], Single).value;
                     mode == read.mode && (commands, vars) == ResolveCommands(read.commands, old(vars))
    {
      hide ReadCommand, ReadCommands, SkipSpace, ResolveCommand, ResolveCommands, FollowingCommands;
      ghost var done: seq<Command<string>> := [];
      var pos := start;
      mode, commands := Single, [];
      CommandsBegin(line[start..], vars);
      while true
        invariant start <= pos <= |line|
        invariant FollowingCommands([], ReadCommands(line[start..], Single)) ==
                  FollowingCommands(done, ReadCommands(line[pos..], mode))
        invariant (commands, vars) == ResolveCommands(done, old(vars))
        decreases |line| - pos
      {
        ghost var s, now := line[pos..], mode;
        ghost var was := pos;
        var command;
        ok, command, pos := ParseCommand(line, pos);
        CommandNext(s, now, done);
        if !ok { return; }
        ghost var c := ReadCommand(s).value.value;
        ResolveMoreCommands(done, c, old(vars));
        done := done + [c];
        commands := commands + [command];
        pos := Skip(line, pos);
        ghost var b := line[pos..];
        assert |b| > 0 ==> b[0] == line[pos];
        assert |b| > 1 ==> b[1] == line[pos + 1];
        if pos == |line| {
          WholeCommands(line[start..], done, now);
          return;
        }
        if line[pos] != '|' {
          return false, mode, commands;
        }
        if At(line, pos + 1) == '|' {
          if mode == Single {
            mode := Or;
          } else if mode != Or {
            return false, mode, commands;
          }
          assert b[2..] == line[pos + 2..];
          pos := pos + 2;
        } else {
          if mode == Single {
            mode := And;
          } else if mode != And {
            return false, mode, commands;
          }
          assert b[1..] == line[pos + 1..];
          pos := pos + 1;
        }
        pos := Skip(line, pos);
        if pos == |line| {
          return false, mode, commands;
        }
      }
    }

    // The head of parse_group: how often the group is repeated.
    method ParseRepeats(line: string, start: nat) returns (ok: bool, repeats: nat, pos: nat)
      requires Buffered(line) && start <= |line|
      ensures ok <==> ReadRepeats(line[start..]).Some?
      ensures ok ==> pos <= |line| && ReadRepeats(line[start..]) == Some(Read(repeats, line[pos..]))
    {
      hide SkipSpace, ReadNumber;
      ok, repeats, pos := true, 1, start;
      if REPEAT <= line[pos..] {
        assert line[start..][|REPEAT|..] == line[start + |REPEAT|..];
        pos := Skip(line, pos + |REPEAT|);
        repeats := 0;
        ghost var b := line[pos..];
        assert |b| > 0 ==> b[0] == line[pos];
        if !IsDigit(At(line, pos)) {
          return false, repeats, pos;
        }
        while IsDigit(At(line, pos))
          invariant pos <= |line| && ReadNumber(b, 0) == ReadNumber(line[pos..], repeats)
          decreases |line| - pos
        {
          NumberStep(line, pos, repeats);
          repeats := repeats * 10 + (line[pos] as int - '0' as int);
          pos := pos + 1;
        }
        assert pos < |line| ==> line[pos..][0] == line[pos];
        NumberStops(line[pos..], repeats);
        if !IsSpace(At(line, pos)) {
          return false, repeats, pos;
        }
        pos := Skip(line, pos);
      } else if line[pos..] == "repeat" {
        return false, repeats, pos;
      }
    }

    // The variable that takes the result of a group, if there is one.
    method ParseResult(line: string, start: nat) returns (ok: bool, resultTo: Option<nat>, pos: nat)
      requires Buffered(line) && start <= |line|
      modifies this
      ensures ok <==> ReadResult(line[start..]).Some?
      ensures ok ==> var read := ReadResult(line[start..]).value;
                     && pos <= |line| && read.rest == line[pos..]
                     && (resultTo, vars) == InternOption(read.value, old(vars))
    {
      hide ReadVariable, SkipSpace, Intern;
      ok, resultTo, pos := true, None, start;
      assert Starts(line[pos..], '$') <==> At(line, pos) == '$';
      if At(line, pos) == '$' {
        var id;
        ok, id, pos := ParseVariable(line, pos);
        resultTo := Some(id);
        if !ok { return; }
        pos := Skip(line, pos);
        assert Starts(line[pos..], '=') <==> At(line, pos) == '=';
        if At(line, pos) != '=' {
          return false, resultTo, pos;
        }
        assert line[pos..][1..] == line[pos + 1..];
        pos := Skip(line, pos + 1);
      }
    }

    // parse_group
    method ParseGroup(line: string, start: nat) returns (ok: bool, group: Group<nat>)
      requires Buffered(line) && start <= |line|
      modifies this
      ensures ok <==> ReadGroup(line[start..]).Some?
      ensures ok ==> (group, vars) == ResolveGroup(ReadGroup(line[start..]).value, old(vars))
    {
      hide ReadRepeats, ReadResult, ReadCommands, SkipSpace, Intern, ResolveCommands;
      group := Group(Single, 1, None, []);
      var pos := Skip(line, start);
      var repeats, resultTo, mode, commands;
      ok, repeats, pos := ParseRepeats(line, pos);
      if !ok { return; }
      ok, resultTo, pos := ParseResult(line, pos);
      if !ok { return; }
      if pos == |line| {
        return false, group;
      }
      ok, mode, commands := ParseCommands(line, pos);
      group := Group(mode, repeats, resultTo, commands);
    }

    // parse_script_file, on the lines that fgets would deliver.
    method ParseScript(lines: seq<string>) returns (groups: Option<seq<Group<nat>>>)
      requires AllLines(lines)
      modifies this
      ensures groups.Some? <==> Parsed(lines, old(vars)).Some?
      ensures groups.Some? ==> Parsed(lines, old(vars)) == Some(Script(groups.value, vars))
    {
      hide ReadGroup, ReadLines, SkipSpace, ResolveGroup, ResolveGroups, FollowingGroups;
      var parsed: seq<Group<nat>> := [];
      ghost var done: seq<Group<string>> := [];
      GroupsBegin(lines, vars);
      var n := 0;
      while n < |lines|
        invariant 0 <= n <= |lines|
        invariant FollowingGroups([], ReadLines(lines)) == FollowingGroups(done, ReadLines(lines[n..]))
        invariant (parsed, vars) == ResolveGroups(done, old(vars))
      {
        var line := lines[n];
        LineNext(lines, n, done);
        var i := 0;
        while i < |line|
          invariant 0 <= i <= |line| && forall k :: 0 <= k < i ==> line[k] < 128 as char
        {
          if line[i] >= 128 as char {
            return None;
          }
          i := i + 1;
        }
        // i, with the newline that is still there
        if i + 1 >= MAX_LINE_LENGTH - 1 {
          return None;
        }
        assert line[0..] == line;
        var pos := Skip(line, 0);
        assert pos < |line| ==> line[pos..][0] == line[pos];
        if pos == |line| || line[pos] == '#' {
          // a comment or an empty line
        } else {
          SkipTwice(line);
          ReadGroupSkipped(line);
          var ok, group := ParseGroup(line, pos);
          if !ok { return None; }
          ghost var g := ReadGroup(line).value;
          ResolveMoreGroups(done, g, old(vars));
          done := done + [g];
          parsed := parsed + [group];
        }
        n := n + 1;
      }
      GroupsEnd(lines, done);
      groups := Some(parsed);
    }

    // The two inner loops of print_script: one command.
    method WriteCommand(command: Command<nat>) returns (out: string)
      requires KnownCommand(command, vars)
      ensures out == PrintCommand(NameCommand(command, vars))
    {
      hide PrintArgument, Quote, PrintArguments;
      ghost var named := NameArguments(command.arguments, vars);
      ghost var pidTo := NameOption(command.pidTo, vars);
      out := "\"" + command.program + "\"";
      assert out == Quote(command.program) by { QuoteIs(command.program); }
      ghost var whole := out + PrintArguments(named, pidTo);
      assert named[0..] == named;
      var k := 0;
      while k < |command.arguments|
        invariant 0 <= k <= |command.arguments|
        invariant whole == out + PrintArguments(named[k..], pidTo)
      {
        var argument := command.arguments[k];
        assert KnownArgument(argument, vars);
        ArgumentWritten(named, k, pidTo, out);
        if argument.Literal? {
          out := out + (" \"" + argument.text + "\"");
        } else {
          out := out + (" $" + vars[argument.v]);
        }
        k := k + 1;
      }
      LastWritten(named[k..], pidTo, out);
      if command.pidTo.Some? {
        out := out + (" @ $" + vars[command.pidTo.value]);
      }
    }

    // One line of print_script.
    method WriteGroup(group: Group<nat>) returns (out: string)
      requires KnownGroup(group, vars)
      ensures out == PrintGroup(NameGroup(group, vars))
    {
      hide PrintCommands, PrintCommand, Decimal, KnownCommand, NameCommand, Rest;
      ghost var named := NameCommands(group.commands, vars);
      out := "";
      if group.repeats != 1 {
        out := out + ("repeat " + Decimal(group.repeats) + " ");
      }
      assert out == PrintRepeats(group.repeats);
      if group.resultTo != None {
        out := out + ("$" + vars[group.resultTo.value] + " = ");
      }
      assert out == PrintRepeats(group.repeats) + PrintResult(NameOption(group.resultTo, vars));
      ghost var whole := out + PrintCommands(group.mode, named);
      RestStarts(group.mode, named);
      var j := 0;
      while j < |group.commands|
        invariant 0 <= j <= |group.commands|
        invariant whole == out + Rest(group.mode, named, j)
      {
        CommandWritten(group.mode, named, j, out);
        if j > 0 {
          out := out + (" " + (if group.mode == And then "|" else "||") + " ");
        }
        assert KnownCommand(group.commands[j], vars);
        var command := WriteCommand(group.commands[j]);
        out := out + command;
        j := j + 1;
      }
      RestEnds(group.mode, named);
      assert out + "" == out;
    }

    // print_script
    method WriteScript(groups: seq<Group<nat>>) returns (out: seq<string>)
      requires Known(groups, vars)
      ensures out == Printed(Script(groups, vars))
    {
      hide PrintGroup, KnownGroup, NameGroup;
      ghost var named := NameGroups(groups, vars);
      out := [];
      assert named[0..] == named && [] + PrintLines(named) == PrintLines(named);
      var i := 0;
      while i < |groups|
        invariant 0 <= i <= |groups|
        invariant PrintLines(named) == out + PrintLines(named[i..])
      {
        assert KnownGroup(groups[i], vars);
        var line := WriteGroup(groups[i]);
        LineWritten(named, i, out);
        out := out + [line];
        i := i + 1;
      }
      assert named[i..] == [];
      assert out + [] == out;
    }
  }

  lemma {:induction false} QuoteIs(text: string)
    ensures Quote(text) == "\"" + text + "\""
  {
  }

  lemma {:induction false} ArgumentWritten(named: seq<Named>, k: nat, pidTo: Option<string>, out: string)
    requires k < |named|
    ensures var text := if named[k].Literal? then " \"" + named[k].text + "\"" else " $" + named[k].v;
      out + PrintArguments(named[k..], pidTo) == out + text + PrintArguments(named[k + 1..], pidTo)
  {
  }

  lemma {:induction false} LastWritten(named: seq<Named>, pidTo: Option<string>, out: string)
    requires named == []
    ensures out + PrintArguments(named, pidTo) == if pidTo.None? then out else out + (" @ $" + pidTo.value)
  {
  }

  // What is still to be written once j commands are.
  function Rest(mode: Mode, named: seq<Command<string>>, j: nat): string
    requires j <= |named|
  {
    if j == |named| then ""
    else (if j > 0 then Combiner(mode) else "") + PrintCommands(mode, named[j..])
  }

  lemma {:induction false} RestStarts(mode: Mode, named: seq<Command<string>>)
    ensures Rest(mode, named, 0) == PrintCommands(mode, named)
  {
  }

  lemma {:induction false} RestEnds(mode: Mode, named: seq<Command<string>>)
    ensures Rest(mode, named, |named|) == ""
  {
  }

  lemma {:induction false} CommandWritten(mode: Mode, named: seq<Command<string>>, j: nat, out: string)
    requires j < |named|
    ensures var combiner := " " + (if mode == And then "|" else "||") + " ";
      out + Rest(mode, named, j) ==
      (if j > 0 then out + combiner else out) + PrintCommand(named[j]) + Rest(mode, named, j + 1)
  {
    hide PrintCommand, Rest;
    var combiner := " " + (if mode == And then "|" else "||") + " ";
    var first, here, more := if j > 0 then combiner else "", PrintCommand(named[j]), Rest(mode, named, j + 1);
    RestStep(mode, named, j);
    assert out + (first + (here + more)) == out + first + here + more;
    assert out + "" == out;
  }

  lemma {:induction false} RestStep(mode: Mode, named: seq<Command<string>>, j: nat)
    requires j < |named|
    ensures var combiner := " " + (if mode == And then "|" else "||") + " ";
      Rest(mode, named, j) == (if j > 0 then combiner else "") + (PrintCommand(named[j]) + Rest(mode, named, j + 1))
  {
    hide PrintCommand, PrintCommands;
    CommandsSplit(mode, named, j);
    assert " " + (if mode == And then "|" else "||") + " " == Combiner(mode);
  }

  lemma {:induction false} CommandsSplit(mode: Mode, named: seq<Command<string>>, j: nat)
    requires j < |named|
    ensures PrintCommands(mode, named[j..]) == PrintCommand(named[j]) + Rest(mode, named, j + 1)
  {
  }

  lemma {:induction false} LineWritten(named: seq<Group<string>>, i: nat, out: seq<string>)
    requires i < |named|
    ensures out + PrintLines(named[i..]) == out + [PrintGroup(named[i])] + PrintLines(named[i + 1..])
  {
    hide PrintGroup;
    assert named[i..][1..] == named[i + 1..] && named[i..][0] == named[i];
    assert out + ([PrintGroup(named[i])] + PrintLines(named[i + 1..])) ==
           out + [PrintGroup(named[i])] + PrintLines(named[i + 1..]);
  }

  lemma {:induction false} NumberStep(line: string, pos: nat, acc: nat)
    requires pos < |line| && IsDigit(line[pos])
    ensures ReadNumber(line[pos..], acc) == ReadNumber(line[pos + 1..], acc * 10 + (line[pos] as int - '0' as int))
  {
  }

  lemma {:induction false} ReadGroupSkipped(line: string)
    ensures ReadGroup(SkipSpace(line)) == ReadGroup(line)
  {
  }

  function FollowingGroups(done: seq<Group<string>>, r: Option<seq<Group<string>>>): Option<seq<Group<string>>> {
    match r
    case None => None
    case Some(groups) => Some(done + groups)
  }

  lemma {:induction false} GroupsBegin(lines: seq<string>, table: Table)
    ensures FollowingGroups([], ReadLines(lines)) == ReadLines(lines) && lines[0..] == lines
    ensures ResolveGroups([], table) == ([], table)
  {
    var r := ReadLines(lines);
    if r.Some? { assert [] + r.value == r.value; }
  }

  lemma {:induction false} GroupsEnd(lines: seq<string>, done: seq<Group<string>>)
    requires FollowingGroups([], ReadLines(lines)) == FollowingGroups(done, ReadLines(lines[|lines|..]))
    ensures ReadLines(lines) == Some(done)
  {
    GroupsBegin(lines, []);
    assert lines[|lines|..] == [];
    assert done + [] == done;
  }

  lemma {:induction false} LineNext(lines: seq<string>, n: nat, done: seq<Group<string>>)
    requires n < |lines|
    ensures FollowingGroups(done, ReadLines(lines[n..])) ==
            if !Ascii(lines[n]) || !Fits(lines[n]) then None
            else if SkippedLine(lines[n]) then FollowingGroups(done, ReadLines(lines[n + 1..]))
            else
              match ReadGroup(lines[n])
              case None => None
              case Some(g) => FollowingGroups(done + [g], ReadLines(lines[n + 1..]))
  {
    hide ReadGroup, SkippedLine, Ascii, Fits;
    assert lines[n..][1..] == lines[n + 1..];
    var more := ReadLines(lines[n + 1..]);
    if ReadGroup(lines[n]).Some? && more.Some? {
      var g := ReadGroup(lines[n]).value;
      assert done + ([g] + more.value) == done + [g] + more.value;
    }
  }

  lemma {:induction false} ResolveMoreGroups(done: seq<Group<string>>, g: Group<string>, table: Table)
    ensures var (r, t1) := ResolveGroups(done, table);
      var (x, t2) := ResolveGroup(g, t1);
      ResolveGroups(done + [g], table) == (r + [x], t2)
    decreases |done|
  {
    hide ResolveGroup;
    if done == [] {
      var (x, t2) := ResolveGroup(g, table);
      assert done + [g] == [g];
      assert [g][1..] == [];
      assert [x] + [] == [] + [x];
    } else {
      var (first, t) := ResolveGroup(done[0], table);
      ResolveMoreGroups(done[1..], g, t);
      assert (done + [g])[1..] == done[1..] + [g];
      var (r, t1) := ResolveGroups(done[1..], t);
      var x := ResolveGroup(g, t1).0;
      assert [first] + (r + [x]) == [first] + r + [x];
    }
  }

  function FollowingCommands(done: seq<Command<string>>, r: Option<Commands>): Option<Commands> {
    match r
    case None => None
    case Some(read) => Some(Commands(read.mode, done + read.commands))
  }

  lemma {:induction false} CommandsBegin(s: string, table: Table)
    ensures FollowingCommands([], ReadCommands(s, Single)) == ReadCommands(s, Single)
    ensures ResolveCommands([], table) == ([], table)
  {
    var r := ReadCommands(s, Single);
    if r.Some? { assert [] + r.value.commands == r.value.commands; }
  }

  // What one command and the combiner behind it do to the rest of the line.
  lemma {:induction false} CommandNext(s: string, mode: Mode, done: seq<Command<string>>)
    ensures FollowingCommands(done, ReadCommands(s, mode)) ==
            match ReadCommand(s)
            case None => None
            case Some(read) =>
              var b := SkipSpace(read.rest);
              if b == [] then Some(Commands(mode, done + [read.value]))
              else if b[0] != '|' then None
              else
                var or := |b| > 1 && b[1] == '|';
                var rest := SkipSpace(b[if or then 2 else 1..]);
                if mode == (if or then And else Or) || rest == [] then None
                else FollowingCommands(done + [read.value], ReadCommands(rest, if or then Or else And))
  {
    hide ReadCommand, SkipSpace;
    if ReadCommand(s).Some? {
      var read := ReadCommand(s).value;
      var b := SkipSpace(read.rest);
      if b != [] && b[0] == '|' {
        var or := |b| > 1 && b[1] == '|';
        var more := ReadCommands(SkipSpace(b[if or then 2 else 1..]), if or then Or else And);
        if more.Some? {
          assert done + ([read.value] + more.value.commands) == done + [read.value] + more.value.commands;
        }
      }
    }
  }

  lemma {:induction false} WholeCommands(s: string, done: seq<Command<string>>, mode: Mode)
    requires FollowingCommands([], ReadCommands(s, Single)) == Some(Commands(mode, done))
    ensures ReadCommands(s, Single) == Some(Commands(mode, done))
  {
    CommandsBegin(s, []);
  }

  lemma {:induction false} ResolveMoreCommands(done: seq<Command<string>>, c: Command<string>, table: Table)
    ensures var (r, t1) := ResolveCommands(done, table);
      var (x, t2) := ResolveCommand(c, t1);
      ResolveCommands(done + [c], table) == (r + [x], t2)
    decreases |done|
  {
    hide ResolveCommand;
    if done == [] {
      var (x, t2) := ResolveCommand(c, table);
      assert done + [c] == [c];
      assert [c][1..] == [];
      assert [x] + [] == [] + [x];
    } else {
      var (first, t) := ResolveCommand(done[0], table);
      ResolveMoreCommands(done[1..], c, t);
      assert (done + [c])[1..] == done[1..] + [c];
      var (r, t1) := ResolveCommands(done[1..], t);
      var x := ResolveCommand(c, t1).0;
      assert [first] + (r + [x]) == [first] + r + [x];
    }
  }

  lemma {:induction false} ResolveNothing(table: Table)
    ensures ResolveArguments([], table) == ([], table)
  {
  }
}