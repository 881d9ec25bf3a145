/** The table of variables that Shelllab/parse.c keeps while it reads a script, and what whole scripts mean. */
module ScriptTable {
  import opened Options
  import opened ScriptSyntax

  type Table = seq<string>

  // parse_variable takes the first entry that agrees with the name on the length of the name.
  function Find(table: Table, name: string): (i: nat)
    ensures i <= |table| && (i < |table| ==> name <= table[i])
    ensures forall j :: 0 <= j < i ==> !(name <= table[j])
  {
    if table == [] || name <= table[0] then 0 else 1 + Find(table[1..], name)
  }

  function Intern(table: Table, name: string): (r: (Table, nat))
    ensures table <= r.0 && r.1 < |r.0|
  {
    var i := Find(table, name);
    (if i < |table| then table else table + [name], i)
  }

  // No name begins an earlier one; in particular no name is there twice.
  ghost predicate NoLatePrefix(table: Table) {
    forall i, j :: 0 <= i < j < |table| ==> !(table[j] <= table[i])
  }

  ghost predicate CleanTable(table: Table) {
    NoLatePrefix(table) && forall i :: 0 <= i < |table| ==> CleanName(table[i])
  }

  lemma {:induction false} InternKeepsTable(table: Table, name: string)
    requires CleanTable(table) && CleanName(name)
    ensures CleanTable(Intern(table, name).0)
  {
    var after := Intern(table, name).0;
    forall i, j | 0 <= i < j < |after| ensures !(after[j] <= after[i]) {
      if j == |table| { assert !(name <= table[i]); }
    }
  }

  lemma {:induction false} FindIs(table: Table, name: string, i: nat)
    requires i <= |table| && (i < |table| ==> name <= table[i])
    requires forall j :: 0 <= j < i ==> !(name <= table[j])
    ensures Find(table, name) == i
  {
  }

  // A variable is found again under its full name, in any later state of the table.
  lemma {:induction false} InternAgain(table: Table, i: nat)
    requires NoLatePrefix(table) && i < |table|
    ensures Intern(table, table[i]) == (table, i)
  {
  }

  // Looking up the name a variable ended up with does to the table what looking up the written name did.
  lemma {:induction false} InternFullName(table: Table, name: string, later: Table)
    requires NoLatePrefix(table) && Intern(table, name).0 <= later
    ensures Intern(table, later[Intern(table, name).1]) == Intern(table, name)
  {
    var (after, id) := Intern(table, name);
    assert later[id] == after[id];
    if id < |table| {
      assert after == table;
      InternAgain(table, id);
    } else {
      assert after[|table|] == name;
    }
  }

  // A name gets a variable of its own exactly when no variable so far has a longer name that begins with it,
  // unless the name itself came first.
  lemma {:induction false} OwnVariable(table: Table, name: string)
    ensures var (after, id) := Intern(table, name);
      after[id] == name <==>
      (forall i :: 0 <= i < |table| && name < table[i] ==> exists j :: 0 <= j < i && table[j] == name)
  {
  }

  // ------------------------------------------------- names become variables

  function InternOption(v: Option<string>, table: Table): (r: (Option<nat>, Table))
    ensures table <= r.1
  {
    match v
    case None => (None, table)
    case Some(name) => var (after, id) := Intern(table, name); (Some(id), after)
  }

  function ResolveArgument(a: Named, table: Table): (r: (Argument<nat>, Table))
    ensures table <= r.1
  {
    match a
    case Literal(text) => (Literal(text), table)
    case Variable(name) => var (after, id) := Intern(table, name); (Variable(id), after)
  }

  function ResolveArguments(arguments: seq<Named>, table: Table): (r: (seq<Argument<nat>>, Table))
    ensures table <= r.1 && |r.0| == |arguments|
  {
    if arguments == [] then ([], table)
    else
      var (first, t1) := ResolveArgument(arguments[0], table);
      var (more, t2) := ResolveArguments(arguments[1..], t1);
      ([first] + more, t2)
  }

  function ResolveCommand(c: Command<string>, table: Table): (r: (Command<nat>, Table))
    ensures table <= r.1
  {
    var (arguments, t1) := ResolveArguments(c.arguments, table);
    var (pidTo, t2) := InternOption(c.pidTo, t1);
    (Command(c.program, arguments, pidTo), t2)
  }

  function ResolveCommands(commands: seq<Command<string>>, table: Table): (r: (seq<Command<nat>>, Table))
    ensures table <= r.1 && |r.0| == |commands|
  {
    if commands == [] then ([], table)
    else
      var (first, t1) := ResolveCommand(commands[0], table);
      var (more, t2) := ResolveCommands(commands[1..], t1);
      ([first] + more, t2)
  }

  function ResolveGroup(g: Group<string>, table: Table): (r: (Group<nat>, Table))
    ensures table <= r.1
  {
    var (resultTo, t1) := InternOption(g.resultTo, table);
    var (commands, t2) := ResolveCommands(g.commands, t1);
    (Group(g.mode, g.repeats, resultTo, commands), t2)
  }

  function ResolveGroups(groups: seq<Group<string>>, table: Table): (r: (seq<Group<nat>>, Table))
    ensures table <= r.1 && |r.0| == |groups|
  {
    if groups == [] then ([], table)
    else
      var (first, t1) := ResolveGroup(groups[0], table);
      var (more, t2) := ResolveGroups(groups[1..], t1);
      ([first] + more, t2)
  }

  // ------------------------------------------------- variables become names

  predicate KnownOption(v: Option<nat>, table: Table) { v.Some? ==> v.value < |table| }

  predicate KnownArgument(a: Argument<nat>, table: Table) { a.Variable? ==> a.v < |table| }

  predicate KnownCommand(c: Command<nat>, table: Table) {
    KnownOption(c.pidTo, table) && forall i :: 0 <= i < |c.arguments| ==> KnownArgument(c.arguments[i], table)
  }

  predicate KnownGroup(g: Group<nat>, table: Table) {
    KnownOption(g.resultTo, table) && forall i :: 0 <= i < |g.commands| ==> KnownCommand(g.commands[i], table)
  }

  predicate Known(groups: seq<Group<nat>>, table: Table) {
    forall i :: 0 <= i < |groups| ==> KnownGroup(groups[i], table)
  }

  function NameOption(v: Option<nat>, table: Table): Option<string>
    requires KnownOption(v, table)
  {
    if v.None? then None else Some(table[v.value])
  }

  function NameArgument(a: Argument<nat>, table: Table): Named
    requires KnownArgument(a, table)
  {
    match a
    case Literal(text) => Literal(text)
    case Variable(id) => Variable(table[id])
  }

  function NameArguments(arguments: seq<Argument<nat>>, table: Table): (r: seq<Named>)
    requires forall i :: 0 <= i < |arguments| ==> KnownArgument(arguments[i], table)
    ensures |r| == |arguments|
    ensures forall i :: 0 <= i < |r| ==> r[i] == NameArgument(arguments[i], table)
  {
    if arguments == [] then []
    else [NameArgument(arguments[0], table)] + NameArguments(arguments[1..], table)
  }

  function NameCommand(c: Command<nat>, table: Table): Command<string>
    requires KnownCommand(c, table)
  {
    Command(c.program, NameArguments(c.arguments, table), NameOption(c.pidTo, table))
  }

  function NameCommands(commands: seq<Command<nat>>, table: Table): (r: seq<Command<string>>)
    requires forall i :: 0 <= i < |commands| ==> KnownCommand(commands[i], table)
    ensures |r| == |commands|
    ensures forall i :: 0 <= i < |r| ==> r[i] == NameCommand(commands[i], table)
  {
    if commands == [] then []
    else [NameCommand(commands[0], table)] + NameCommands(commands[1..], table)
  }

  function NameGroup(g: Group<nat>, table: Table): Group<string>
    requires KnownGroup(g, table)
  {
    Group(g.mode, g.repeats, NameOption(g.resultTo, table), NameCommands(g.commands, table))
  }

  function NameGroups(groups: seq<Group<nat>>, table: Table): (r: seq<Group<string>>)
    requires Known(groups, table)
    ensures |r| == |groups|
    ensures forall i :: 0 <= i < |r| ==> r[i] == NameGroup(groups[i], table)
  {
    if groups == [] then []
    else [NameGroup(groups[0], table)] + NameGroups(groups[1..], table)
  }

  // ------------------------------------------- the table while a script is read

  lemma {:induction false} OptionKeepsTable(v: Option<string>, table: Table)
    requires CleanTable(table) && (v.Some? ==> CleanName(v.value))
    ensures CleanTable(InternOption(v, table).1)
  {
  }

  lemma {:induction false} ArgumentsKeepTable(arguments: seq<Named>, table: Table)
    requires CleanTable(table) && forall i :: 0 <= i < |arguments| ==> CleanArgument(arguments[i])
    ensures CleanTable(ResolveArguments(arguments, table).1)
    decreases |arguments|
  {
    if arguments != [] {
      if arguments[0].Variable? { InternKeepsTable(table, arguments[0].v); }
      ArgumentsKeepTable(arguments[1..], ResolveArgument(arguments[0], table).1);
    }
  }

  lemma {:induction false} CommandKeepsTable(c: Command<string>, table: Table)
    requires CleanTable(table) && CleanCommand(c)
    ensures CleanTable(ResolveCommand(c, table).1)
  {
    ArgumentsKeepTable(c.arguments, table);
    OptionKeepsTable(c.pidTo, ResolveArguments(c.arguments, table).1);
  }

  lemma {:induction false} CommandsKeepTable(commands: seq<Command<string>>, table: Table)
    requires CleanTable(table) && forall i :: 0 <= i < |commands| ==> CleanCommand(commands[i])
    ensures CleanTable(ResolveCommands(commands, table).1)
    decreases |commands|
  {
    if commands != [] {
      CommandKeepsTable(commands[0], table);
      CommandsKeepTable(commands[1..], ResolveCommand(commands[0], table).1);
    }
  }

  lemma {:induction false} GroupKeepsTable(g: Group<string>, table: Table)
    requires CleanTable(table) && CleanGroup(g)
    ensures CleanTable(ResolveGroup(g, table).1)
  {
    OptionKeepsTable(g.resultTo, table);
    CommandsKeepTable(g.commands, InternOption(g.resultTo, table).1);
  }

  // Reading a script keeps the property of the table that its lookup depends on.
  lemma {:induction false} GroupsKeepTable(groups: seq<Group<string>>, table: Table)
    requires CleanTable(table) && forall i :: 0 <= i < |groups| ==> CleanGroup(groups[i])
    ensures CleanTable(ResolveGroups(groups, table).1)
    decreases |groups|
  {
    if groups != [] {
      GroupKeepsTable(groups[0], table);
      GroupsKeepTable(groups[1..], ResolveGroup(groups[0], table).1);
    }
  }

  // ---------------------------------- naming what was resolved, and resolving it again

  lemma {:induction false} OptionBack(v: Option<string>, table: Table, later: Table)
    requires InternOption(v, table).1 <= later && CleanTable(later)
    ensures var (r, after) := InternOption(v, table);
      && KnownOption(r, later) && InternOption(NameOption(r, later), table) == (r, after)
      && (r.Some? ==> CleanName(NameOption(r, later).value))
  {
  }

  lemma {:induction false} ArgumentBack(a: Named, table: Table, later: Table)
    requires ResolveArgument(a, table).1 <= later && CleanTable(later) && CleanArgument(a)
    ensures var (r, after) := ResolveArgument(a, table);
      && KnownArgument(r, later) && ResolveArgument(NameArgument(r, later), table) == (r, after)
      && CleanArgument(NameArgument(r, later))
  {
  }

  lemma {:induction false} ArgumentsBack(arguments: seq<Named>, table: Table, later: Table)
    requires ResolveArguments(arguments, table).1 <= later && CleanTable(later)
    requires forall i :: 0 <= i < |arguments| ==> CleanArgument(arguments[i])
    ensures var (r, after) := ResolveArguments(arguments, table);
      && (forall i :: 0 <= i < |r| ==> KnownArgument(r[i], later))
      && ResolveArguments(NameArguments(r, later), table) == (r, after)
      && (forall i :: 0 <= i < |r| ==> CleanArgument(NameArguments(r, later)[i]))
    decreases |arguments|
  {
    if arguments != [] {
      var (first, t1) := ResolveArgument(arguments[0], table);
      var (more, t2) := ResolveArguments(arguments[1..], t1);
      ArgumentBack(arguments[0], table, later);
      ArgumentsBack(arguments[1..], t1, later);
      var r := [first] + more;
      assert r[1..] == more;
      var named := NameArguments(r, later);
      assert named == [NameArgument(first, later)] + NameArguments(more, later);
      assert named[1..] == NameArguments(more, later);
    }
  }

  lemma {:induction false} CommandBack(c: Command<string>, table: Table, later: Table)
    requires ResolveCommand(c, table).1 <= later && CleanTable(later) && CleanCommand(c)
    ensures var (r, after) := ResolveCommand(c, table);
      && KnownCommand(r, later) && ResolveCommand(NameCommand(r, later), table) == (r, after)
      && CleanCommand(NameCommand(r, later))
  {
    hide Intern, CleanArgument, CleanTable;
    ArgumentsBack(c.arguments, table, later);
    OptionBack(c.pidTo, ResolveArguments(c.arguments, table).1, later);
  }

  lemma {:induction false} CommandsBack(commands: seq<Command<string>>, table: Table, later: Table)
    requires ResolveCommands(commands, table).1 <= later && CleanTable(later)
    requires forall i :: 0 <= i < |commands| ==> CleanCommand(commands[i])
    ensures var (r, after) := ResolveCommands(commands, table);
      && (forall i :: 0 <= i < |r| ==> KnownCommand(r[i], later))
      && ResolveCommands(NameCommands(r, later), table) == (r, after)
      && (forall i :: 0 <= i < |r| ==> CleanCommand(NameCommands(r, later)[i]))
    decreases |commands|
  {
    hide KnownCommand, CleanCommand, CleanTable, NameCommand, ResolveCommand;
    if commands != [] {
      var (first, t1) := ResolveCommand(commands[0], table);
      var (more, t2) := ResolveCommands(commands[1..], t1);
      CommandBack(commands[0], table, later);
      CommandsBack(commands[1..], t1, later);
      var r := [first] + more;
      assert r[1..] == more;
      var named := NameCommands(r, later);
      assert named == [NameCommand(first, later)] + NameCommands(more, later);
      assert named[1..] == NameCommands(more, later);
    }
  }

  lemma {:induction false} GroupBack(g: Group<string>, table: Table, later: Table)
    requires ResolveGroup(g, table).1 <= later && CleanTable(later) && CleanGroup(g)
    ensures var (r, after) := ResolveGroup(g, table);
      && KnownGroup(r, later) && ResolveGroup(NameGroup(r, later), table) == (r, after)
      && CleanGroup(NameGroup(r, later))
  {
    hide KnownCommand, CleanCommand, CleanTable, NameCommand, ResolveCommand, Intern;
    OptionBack(g.resultTo, table, later);
    CommandsBack(g.commands, InternOption(g.resultTo, table).1, later);
  }

  lemma {:induction false} GroupsBack(groups: seq<Group<string>>, table: Table, later: Table)
    requires ResolveGroups(groups, table).1 <= later && CleanTable(later)
    requires forall i :: 0 <= i < |groups| ==> CleanGroup(groups[i])
    ensures var (r, after) := ResolveGroups(groups, table);
      && Known(r, later)
      && ResolveGroups(NameGroups(r, later), table) == (r, after)
      && (forall i :: 0 <= i < |r| ==> CleanGroup(NameGroups(r, later)[i]))
    decreases |groups|
  {
    hide KnownGroup, CleanGroup, CleanTable, NameGroup, ResolveGroup;
    if groups != [] {
      var (first, t1) := ResolveGroup(groups[0], table);
      var (more, t2) := ResolveGroups(groups[1..], t1);
      GroupBack(groups[0], table, later);
      GroupsBack(groups[1..], t1, later);
      var r := [first] + more;
      assert r[1..] == more;
      var named := NameGroups(r, later);
      assert named == [NameGroup(first, later)] + NameGroups(more, later);
      assert named[1..] == NameGroups(more, later);
    }
  }

  // Once every variable is in the table, naming and resolving leaves both as they are.
  lemma {:induction false} OptionSame(v: Option<nat>, table: Table)
    requires NoLatePrefix(table) && KnownOption(v, table)
    ensures InternOption(NameOption(v, table), table) == (v, table)
  {
  }

  lemma {:induction false} ArgumentSame(a: Argument<nat>, table: Table)
    requires NoLatePrefix(table) && KnownArgument(a, table)
    ensures ResolveArgument(NameArgument(a, table), table) == (a, table)
  {
    if a.Variable? { InternAgain(table, a.v); }
  }

  lemma {:induction false} ArgumentsSame(arguments: seq<Argument<nat>>, table: Table)
    requires NoLatePrefix(table) && forall i :: 0 <= i < |arguments| ==> KnownArgument(arguments[i], table)
    ensures ResolveArguments(NameArguments(arguments, table), table) == (arguments, table)
    decreases |arguments|
  {
    hide NoLatePrefix, KnownArgument, NameArgument, ResolveArgument;
    if arguments != [] {
      ArgumentSame(arguments[0], table);
      ArgumentsSame(arguments[1..], table);
      assert NameArguments(arguments, table)[1..] == NameArguments(arguments[1..], table);
      assert [arguments[0]] + arguments[1..] == arguments;
    }
  }

  lemma {:induction false} CommandSame(c: Command<nat>, table: Table)
    requires NoLatePrefix(table) && KnownCommand(c, table)
    ensures ResolveCommand(NameCommand(c, table), table) == (c, table)
  {
    hide NoLatePrefix, NameOption, InternOption, ResolveArguments, NameArguments;
    ArgumentsSame(c.arguments, table);
    OptionSame(c.pidTo, table);
  }

  lemma {:induction false} CommandsSame(commands: seq<Command<nat>>, table: Table)
    requires NoLatePrefix(table) && forall i :: 0 <= i < |commands| ==> KnownCommand(commands[i], table)
    ensures ResolveCommands(NameCommands(commands, table), table) == (commands, table)
    decreases |commands|
  {
    hide NoLatePrefix, KnownCommand, NameCommand, ResolveCommand;
    if commands != [] {
      CommandSame(commands[0], table);
      CommandsSame(commands[1..], table);
      assert NameCommands(commands, table)[1..] == NameCommands(commands[1..], table);
      assert [commands[0]] + commands[1..] == commands;
    }
  }

  lemma {:induction false} GroupSame(g: Group<nat>, table: Table)
    requires NoLatePrefix(table) && KnownGroup(g, table)
    ensures ResolveGroup(NameGroup(g, table), table) == (g, table)
  {
    hide NoLatePrefix, KnownCommand, NameOption, InternOption, ResolveCommands, NameCommands;
    OptionSame(g.resultTo, table);
    CommandsSame(g.commands, table);
  }

  lemma {:induction false} GroupsSame(groups: seq<Group<nat>>, table: Table)
    requires NoLatePrefix(table) && Known(groups, table)
    ensures ResolveGroups(NameGroups(groups, table), table) == (groups, table)
    decreases |groups|
  {
    hide NoLatePrefix, KnownGroup, NameGroup, ResolveGroup;
    if groups != [] {
      GroupSame(groups[0], table);
      GroupsSame(groups[1..], table);
      assert NameGroups(groups, table)[1..] == NameGroups(groups[1..], table);
      assert [groups[0]] + groups[1..] == groups;
    }
  }

  // ------------------------------------------------------------- whole scripts

  const MAX_LINE_LENGTH: nat := 1024

  // fgets with a buffer of this size must have room for the line, its newline and one byte to spare.
  predicate Fits(line: string) { |line| + 1 < MAX_LINE_LENGTH - 1 }

  predicate Ascii(line: string) { forall i :: 0 <= i < |line| ==> line[i] < 128 as char }

  predicate SkippedLine(line: string) {
    var b := SkipSpace(line);
    b == [] || b[0] == '#'
  }

  // The groups of a script, line by line; a single bad line fails the whole of it.
  function ReadLines(lines: seq<string>): Option<seq<Group<string>>> {
    if lines == [] then Some([])
    else if !Ascii(lines[0]) || !Fits(lines[0]) then None
    else if SkippedLine(lines[0]) then ReadLines(lines[1..])
    else
      match ReadGroup(lines[0])
      case None => None
      case Some(g) =>
        match ReadLines(lines[1..])
        case None => None
        case Some(more) => Some([g] + more)
  }

  datatype Script = Script(groups: seq<Group<nat>>, table: Table)

  function Parsed(lines: seq<string>, table: Table): Option<Script> {
    match ReadLines(lines)
    case None => None
    case Some(groups) => var (r, after) := ResolveGroups(groups, table); Some(Script(r, after))
  }

  function PrintLines(groups: seq<Group<string>>): seq<string> {
    if groups == [] then [] else [PrintGroup(groups[0])] + PrintLines(groups[1..])
  }

  function Printed(script: Script): seq<string>
    requires Known(script.groups, script.table)
  {
    PrintLines(NameGroups(script.groups, script.table))
  }

  // What fgets leaves of a line, without its newline.
  ghost predicate IsLine(s: string) { forall i :: 0 <= i < |s| ==> s[i] != '\0' && s[i] != '\n' }

  ghost predicate AllLines(lines: seq<string>) { forall i :: 0 <= i < |lines| ==> IsLine(lines[i]) }

  predicate AllFit(lines: seq<string>) { forall i :: 0 <= i < |lines| ==> Fits(lines[i]) }

  ghost predicate AllClean(groups: seq<Group<string>>) { forall i :: 0 <= i < |groups| ==> CleanGroup(groups[i]) }

  lemma {:induction false} LinesAreClean(lines: seq<string>)
    requires AllLines(lines) && ReadLines(lines).Some?
    ensures AllClean(ReadLines(lines).value)
    decreases |lines|
  {
    hide CleanGroup, ReadGroup, SkippedLine;
    if lines != [] {
      assert IsLine(lines[0]);
      LinesAreClean(lines[1..]);
      if !SkippedLine(lines[0]) {
        assert AllText(lines[0]);
        GroupIsClean(lines[0]);
      }
    }
  }

  lemma {:induction false} PrintedLine(g: Group<string>)
    requires CleanGroup(g)
    ensures var s := PrintGroup(g);
      IsLine(s) && Ascii(s) && !SkippedLine(s) && ReadGroup(s) == Some(g)
  {
    hide PrintGroup, ReadGroup, CleanGroup;
    var s := PrintGroup(g);
    PrintedIsText(g);
    assert forall i :: 0 <= i < |s| ==> IsText(s[i]);
    PrintedIsRead(g);
    ReadGroupBack(g);
  }

  // Reading printed groups gives them back, exactly when no printed line is too long to be read.
  lemma {:induction false} ReadLinesBack(groups: seq<Group<string>>)
    requires AllClean(groups)
    ensures var out := PrintLines(groups);
      AllLines(out) && ReadLines(out) == if AllFit(out) then Some(groups) else None
    decreases |groups|
  {
    hide CleanGroup, ReadGroup, SkippedLine, PrintGroup, IsLine, Ascii, Fits;
    if groups != [] {
      assert CleanGroup(groups[0]);
      PrintedLine(groups[0]);
      ReadLinesBack(groups[1..]);
      var out := PrintLines(groups);
      assert out[0] == PrintGroup(groups[0]) && out[1..] == PrintLines(groups[1..]);
      assert AllFit(out) <==> Fits(out[0]) && AllFit(out[1..]) by {
        assert forall i :: 0 < i < |out| ==> out[i] == out[1..][i - 1];
      }
      assert [groups[0]] + groups[1..] == groups;
    }
  }

  // Printing what was parsed and parsing it again gives the same script, variable by variable: with the
  // table that the first parse began with, and also with the one it left behind.  It fails exactly when a
  // printed line has outgrown the parser's buffer.
  lemma {:induction false} ParsePrintParse(lines: seq<string>, start: Table)
    requires AllLines(lines) && CleanTable(start) && Parsed(lines, start).Some?
    ensures var script := Parsed(lines, start).value;
      && CleanTable(script.table) && Known(script.groups, script.table)
      && var out := Printed(script);
      && AllLines(out)
      && Parsed(out, start) == (if AllFit(out) then Some(script) else None)
      && Parsed(out, script.table) == (if AllFit(out) then Some(script) else None)
  {
    hide ReadLines, PrintLines, CleanTable, Known, CleanGroup, ResolveGroups, NameGroups;
    var named := ReadLines(lines).value;
    LinesAreClean(lines);
    GroupsKeepTable(named, start);
    var (groups, table) := ResolveGroups(named, start);
    GroupsBack(named, start, table);
    var again := NameGroups(groups, table);
    assert AllClean(again);
    ReadLinesBack(again);
    assert NoLatePrefix(table) by { TableIsClean(table); }
    GroupsSame(groups, table);
  }

  lemma {:induction false} TableIsClean(table: Table)
    requires CleanTable(table)
    ensures NoLatePrefix(table)
  {
  }
}
