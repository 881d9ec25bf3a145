/** Whole scripts as their authors write them: what the parser of Shelllab/parse.c makes of every line. */
module ScriptLines {
  import opened Options
  import opened ScriptSyntax
  import opened ScriptTable
  import opened ScriptNames
  import opened ScriptGrammar

  // ----------------------------------------------------------------- lines

  // A comment or an empty line, or a group.
  datatype WrittenLine = Comment(lead: string, text: string) | Statement(group: WrittenGroup)

  // A line is ASCII and at most 1021 characters long.
  ghost predicate LineOk(x: WrittenLine) {
    && (match x
        case Comment(lead, text) => Blanks(lead) && (text == "" || text[0] == '#')
        case Statement(g) => GroupOk(g))
    && var s := LineText(x);
    |s| <= 1021 && forall i :: 0 <= i < |s| ==> s[i] as int < 128
  }

  ghost function LineText(x: WrittenLine): string {
    match x
    case Comment(lead, text) => lead + text
    case Statement(g) => if g.commands != [] && |g.gaps| == |g.commands| - 1 then GroupText(g) else ""
  }

  ghost predicate LinesOk(lines: seq<WrittenLine>) { forall i :: 0 <= i < |lines| ==> LineOk(lines[i]) }

  ghost function LinesText(lines: seq<WrittenLine>): (r: seq<string>)
    ensures |r| == |lines| && forall i :: 0 <= i < |r| ==> r[i] == LineText(lines[i])
  {
    if lines == [] then [] else [LineText(lines[0])] + LinesText(lines[1..])
  }

  ghost function LinesValue(lines: seq<WrittenLine>): seq<Group<string>>
    requires LinesOk(lines)
  {
    if lines == [] then []
    else (if lines[0].Statement? then [GroupValue(lines[0].group)] else []) + LinesValue(lines[1..])
  }

  lemma LineFits(s: string)
    ensures Fits(s) && Ascii(s) <==> |s| <= 1021 && forall i :: 0 <= i < |s| ==> s[i] as int < 128
  {
  }

  lemma {:induction false} StatementStarts(g: WrittenGroup)
    requires GroupOk(g)
    ensures g.commands != [] && |g.gaps| == |g.commands| - 1 && !SkippedLine(GroupText(g))
  {
    hide SkipSpace, CommandsText, RepeatText, ResultText, Blank, CommandsOk, CommandOk;
    CommandsShape(g.commands, g.gaps);
    var s := CommandsText(g.mode, g.commands, g.gaps);
    CommandsStart(g.mode, g.commands, g.gaps);
    BodyStarts(g.result, s);
    HeadStarts(g.repeated, BodyText(g));
    var all := RepeatText(g.repeated) + BodyText(g);
    SkipBlanks(g.lead, all);
    HeadIs(g.repeated, g.result, s);
  }

  lemma {:induction false} HeadIs(x: Option<Repeat>, y: Option<Result>, s: string)
    requires s != [] && s[0] != '#'
    ensures (RepeatText(x) + (ResultText(y) + s))[0] != '#'
  {
    assert RepeatText(x) + (ResultText(y) + s) == RepeatText(x) + ResultText(y) + s;
  }

  lemma {:induction false} CommentSkipped(lead: string, text: string)
    requires Blanks(lead) && (text == "" || text[0] == '#')
    ensures SkippedLine(lead + text)
  {
    if text != "" { CharactersAre(text[0]); }
    SkipBlanks(lead, text);
  }

  // Written lines are read as the groups they hold.
  lemma {:induction false} LinesRead(lines: seq<WrittenLine>)
    requires LinesOk(lines)
    ensures ReadLines(LinesText(lines)) == Some(LinesValue(lines))
    decreases |lines|
  {
    hide ReadGroup, SkippedLine, GroupOk, Blanks, Fits, Ascii, GroupValue;
    if lines != [] {
      var texts := LinesText(lines);
      assert LineOk(lines[0]);
      LineFits(texts[0]);
      LinesRead(lines[1..]);
      assert texts[1..] == LinesText(lines[1..]);
      match lines[0]
      case Comment(lead, text) =>
        CommentSkipped(lead, text);
        assert [] + LinesValue(lines[1..]) == LinesValue(lines[1..]);
      case Statement(g) =>
        StatementStarts(g);
        GroupRead(g);
    }
  }

  // And lines that are read are written in this way; so all others fail.
  lemma {:induction false} LinesSpelled(texts: seq<string>) returns (lines: seq<WrittenLine>)
    requires ReadLines(texts).Some?
    ensures LinesOk(lines) && LinesText(lines) == texts && LinesValue(lines) == ReadLines(texts).value
    decreases |texts|
  {
    hide ReadGroup, GroupOk, Blanks, Fits, Ascii, GroupValue, SkipSpace, GroupText;
    if texts == [] {
      lines := [];
    } else {
      var more := LinesSpelled(texts[1..]);
      var line := LineSpelled(texts[0]);
      lines := [line] + more;
      assert lines[1..] == more;
    }
  }

  lemma {:induction false} LineSpelled(s: string) returns (x: WrittenLine)
    requires Fits(s) && Ascii(s) && (SkippedLine(s) || ReadGroup(s).Some?)
    ensures LineOk(x) && LineText(x) == s && (x.Comment? <==> SkippedLine(s))
    ensures x.Statement? ==> ReadGroup(s).Some? && GroupValue(x.group) == ReadGroup(s).value
  {
    hide ReadGroup, Blanks, Fits, Ascii, GroupValue, SkipSpace, GroupText;
    LineFits(s);
    if SkippedLine(s) {
      var lead := SkipSpelled(s);
      x := Comment(lead, SkipSpace(s));
    } else {
      var g := GroupSpelled(s);
      GroupShape(g);
      x := Statement(g);
    }
  }

  lemma {:induction false} GroupShape(g: WrittenGroup)
    requires GroupOk(g)
    ensures g.commands != [] && |g.gaps| == |g.commands| - 1
  {
  }

  // ------------------------------------------------- what variables stand for

  // Names have become variables, whose full names they begin; all else is as it was written.
  ghost predicate NameStands(name: string, v: nat, table: Table) { v < |table| && name <= table[v] }

  ghost predicate OptionStands(a: Option<string>, b: Option<nat>, table: Table) {
    (a.Some? <==> b.Some?) && (a.Some? ==> NameStands(a.value, b.value, table))
  }

  ghost predicate ArgumentStands(a: Named, b: Argument<nat>, table: Table) {
    match a
    case Literal(text) => b == Literal(text)
    case Variable(name) => b.Variable? && NameStands(name, b.v, table)
  }

  ghost predicate CommandStands(a: Command<string>, b: Command<nat>, table: Table) {
    && a.program == b.program && |a.arguments| == |b.arguments| && OptionStands(a.pidTo, b.pidTo, table)
    && forall i :: 0 <= i < |a.arguments| ==> ArgumentStands(a.arguments[i], b.arguments[i], table)
  }

  ghost predicate GroupStands(a: Group<string>, b: Group<nat>, table: Table) {
    && a.mode == b.mode && a.repeats == b.repeats && OptionStands(a.resultTo, b.resultTo, table)
    && |a.commands| == |b.commands|
    && forall i :: 0 <= i < |a.commands| ==> CommandStands(a.commands[i], b.commands[i], table)
  }

  ghost predicate GroupsStand(a: seq<Group<string>>, b: seq<Group<nat>>, table: Table) {
    |a| == |b| && forall i :: 0 <= i < |a| ==> GroupStands(a[i], b[i], table)
  }

  lemma {:induction false} InternStands(name: string, table: Table, later: Table)
    requires Intern(table, name).0 <= later
    ensures NameStands(name, Intern(table, name).1, later)
  {
    var (after, id) := Intern(table, name);
    assert later[id] == after[id];
  }

  lemma {:induction false} OptionResolved(v: Option<string>, table: Table, later: Table)
    requires InternOption(v, table).1 <= later
    ensures OptionStands(v, InternOption(v, table).0, later)
  {
    hide Intern, NameStands;
    if v.Some? { InternStands(v.value, table, later); }
  }

  lemma {:induction false} ArgumentsResolved(arguments: seq<Named>, table: Table, later: Table)
    requires ResolveArguments(arguments, table).1 <= later
    ensures var r := ResolveArguments(arguments, table).0;
      forall i :: 0 <= i < |arguments| ==> ArgumentStands(arguments[i], r[i], later)
    decreases |arguments|
  {
    hide Intern, NameStands;
    if arguments != [] {
      var (first, t) := ResolveArgument(arguments[0], table);
      ArgumentsResolved(arguments[1..], t, later);
      if arguments[0].Variable? {
        Earlier(Intern(table, arguments[0].v).0, ResolveArguments(arguments[1..], t).1, later);
        InternStands(arguments[0].v, table, later);
      }
    }
  }

  lemma {:induction false} Earlier(a: Table, b: Table, c: Table)
    requires a <= b && b <= c
    ensures a <= c
  {
  }

  lemma {:induction false} CommandResolved(c: Command<string>, table: Table, later: Table)
    requires ResolveCommand(c, table).1 <= later
    ensures CommandStands(c, ResolveCommand(c, table).0, later)
  {
    hide ArgumentStands, OptionStands, ResolveArguments, InternOption;
    var (r, t) := ResolveArguments(c.arguments, table);
    Earlier(t, InternOption(c.pidTo, t).1, later);
    ArgumentsResolved(c.arguments, table, later);
    OptionResolved(c.pidTo, t, later);
  }

  lemma {:induction false} CommandsResolved(commands: seq<Command<string>>, table: Table, later: Table)
    requires ResolveCommands(commands, table).1 <= later
    ensures var r := ResolveCommands(commands, table).0;
      forall i :: 0 <= i < |commands| ==> CommandStands(commands[i], r[i], later)
    decreases |commands|
  {
    hide CommandStands, ResolveCommand;
    if commands != [] {
      var (first, t) := ResolveCommand(commands[0], table);
      Earlier(t, ResolveCommands(commands[1..], t).1, later);
      CommandResolved(commands[0], table, later);
      CommandsResolved(commands[1..], t, later);
    }
  }

  lemma {:induction false} GroupResolved(g: Group<string>, table: Table, later: Table)
    requires ResolveGroup(g, table).1 <= later
    ensures GroupStands(g, ResolveGroup(g, table).0, later)
  {
    hide CommandStands, OptionStands, ResolveCommands, InternOption;
    var (v, t) := InternOption(g.resultTo, table);
    Earlier(t, ResolveCommands(g.commands, t).1, later);
    OptionResolved(g.resultTo, table, later);
    CommandsResolved(g.commands, t, later);
  }

  lemma {:induction false} GroupsResolved(groups: seq<Group<string>>, table: Table, later: Table)
    requires ResolveGroups(groups, table).1 <= later
    ensures GroupsStand(groups, ResolveGroups(groups, table).0, later)
    decreases |groups|
  {
    hide GroupStands, ResolveGroup;
    if groups != [] {
      var (first, t) := ResolveGroup(groups[0], table);
      Earlier(t, ResolveGroups(groups[1..], t).1, later);
      GroupResolved(groups[0], table, later);
      GroupsResolved(groups[1..], t, later);
    }
  }

  // A written script is accepted, and its groups are what the lines say.
  lemma {:induction false} ScriptRead(lines: seq<WrittenLine>, start: Table)
    requires LinesOk(lines)
    ensures var script := Parsed(LinesText(lines), start);
      script.Some? && GroupsStand(LinesValue(lines), script.value.groups, script.value.table)
  {
    hide ReadLines, ResolveGroups, LinesValue, LineOk, GroupsStand;
    LinesRead(lines);
    var named := LinesValue(lines);
    GroupsResolved(named, start, ResolveGroups(named, start).1);
  }

  // A script that is accepted is written in this way.
  lemma {:induction false} ScriptSpelled(texts: seq<string>, start: Table) returns (lines: seq<WrittenLine>)
    requires Parsed(texts, start).Some?
    ensures LinesOk(lines) && LinesText(lines) == texts
  {
    hide ReadLines, ResolveGroups, LineOk;
    lines := LinesSpelled(texts);
  }

  // --------------------------------------------------------------- plain words

  ghost predicate WordOk(word: string) { word != [] && forall i :: 0 <= i < |word| ==> WordChar(word[i]) }

  // Words, each behind its blanks.
  function Words(gaps: seq<string>, words: seq<string>): string
    requires |gaps| == |words|
  {
    if words == [] then "" else gaps[0] + words[0] + Words(gaps[1..], words[1..])
  }

  function WordItems(gaps: seq<string>, words: seq<string>): (r: seq<Gapped>)
    requires |gaps| == |words|
    ensures |r| == |words| && forall i :: 0 <= i < |r| ==> r[i] == Gapped(gaps[i], Word([Bare(words[i])]))
  {
    if words == [] then [] else [Gapped(gaps[0], Word([Bare(words[0])]))] + WordItems(gaps[1..], words[1..])
  }

  function Literals(words: seq<string>): (r: seq<Argument<nat>>)
    ensures |r| == |words| && forall i :: 0 <= i < |r| ==> r[i] == Literal(words[i])
  {
    if words == [] then [] else [Argument.Literal(words[0])] + Literals(words[1..])
  }

  lemma {:induction false} OneFragment(f: Fragment)
    ensures FragmentsText([f]) == FragmentText(f) && FragmentsValue([f]) == f.text
  {
    assert [f][1..] == [];
    assert FragmentText(f) + "" == FragmentText(f) && f.text + "" == f.text;
  }

  lemma {:induction false} WordsText(gaps: seq<string>, words: seq<string>)
    requires |gaps| == |words|
    ensures ItemsText(WordItems(gaps, words)) == Words(gaps, words)
  {
    if words != [] {
      OneFragment(Bare(words[0]));
      WordsText(gaps[1..], words[1..]);
    }
  }

  // A line of words: the first is the program, the others are its arguments, in order.
  lemma {:induction false} WordsLine(lead: string, program: string, gaps: seq<string>, words: seq<string>,
                                     after: string, table: Table)
    requires Blanks(lead) && Blanks(after) && WordOk(program) && |gaps| == |words|
    requires forall i :: 0 <= i < |words| ==> WordOk(words[i]) && Blanks(gaps[i]) && gaps[i] != []
    requires var s := program + Words(gaps, words) + after; !("repeat " <= s) && s != "repeat"
    requires var line := lead + (program + Words(gaps, words) + after);
             |line| <= 1021 && forall i :: 0 <= i < |line| ==> line[i] as int < 128
    ensures Parsed([lead + (program + Words(gaps, words) + after)], table) ==
            Some(Script([Group(Single, 1, None, [Command(program, Literals(words), None)])], table))
  {
    hide CommandText, GroupText, GroupOk, CommandOk, CommandValue, Blanks, WordOk, GroupValue, Words;
    var c := WrittenCommand([Bare(program)], WordItems(gaps, words), None, after);
    var g := WrittenGroup(lead, None, None, Single, [c], []);
    WordsCommand(program, gaps, words, after);
    WordsGroup(lead, c, program + Words(gaps, words) + after);
    var x := Statement(g);
    assert LineText(x) == lead + (program + Words(gaps, words) + after);
    OneLine(x);
    LinesRead([x]);
    WordsResolved(program, words, CommandValue(c), table);
    OneGroup(GroupValue(g), table);
  }

  lemma {:induction false} WordsCommand(program: string, gaps: seq<string>, words: seq<string>, after: string)
    requires WordOk(program) && |gaps| == |words| && Blanks(after)
    requires forall i :: 0 <= i < |words| ==> WordOk(words[i]) && Blanks(gaps[i]) && gaps[i] != []
    ensures var c := WrittenCommand([Bare(program)], WordItems(gaps, words), None, after);
      && CommandOk(c) && CommandText(c) == program + Words(gaps, words) + after
      && CommandValue(c).program == program && CommandValue(c).pidTo == None
      && |CommandValue(c).arguments| == |words|
      && forall i :: 0 <= i < |words| ==> CommandValue(c).arguments[i] == Literal(words[i])
  {
    hide WordChar, Blank, FragmentsText, FragmentsValue, ItemsText, Words;
    OneFragment(Bare(program));
    WordsText(gaps, words);
    var items := WordItems(gaps, words);
    forall i | 0 <= i < |words| ensures ItemOk(items[i]) && ItemValue(items[i]) == Literal(words[i]) {
      OneFragment(Bare(words[i]));
    }
    assert "" + after == after;
    assert program + (Words(gaps, words) + after) == program + Words(gaps, words) + after;
  }

  lemma {:induction false} WordsGroup(lead: string, c: WrittenCommand, s: string)
    requires Blanks(lead) && CommandOk(c) && CommandText(c) == s && !("repeat " <= s) && s != "repeat"
    ensures var g := WrittenGroup(lead, None, None, Single, [c], []);
      GroupOk(g) && GroupText(g) == lead + s && GroupValue(g) == Group(Single, 1, None, [CommandValue(c)])
  {
    hide CommandOk, CommandText, CommandValue, Blanks;
    assert "" + s == s;
    assert CommandsValue([c]) == [CommandValue(c)];
  }

  lemma {:induction false} OneLine(x: WrittenLine)
    requires LineOk(x) && x.Statement?
    ensures LinesOk([x]) && LinesText([x]) == [LineText(x)] && LinesValue([x]) == [GroupValue(x.group)]
  {
    hide LineOk, LineText, GroupValue, GroupOk;
    assert LineOk([x][0]) && [x][1..] == [];
    assert LinesOk([x]);
    assert LinesValue([x][1..]) == [];
  }

  lemma {:induction false} WordsResolved(program: string, words: seq<string>, c: Command<string>, table: Table)
    requires c.program == program && c.pidTo == None && |c.arguments| == |words|
    requires forall i :: 0 <= i < |words| ==> c.arguments[i] == Literal(words[i])
    ensures ResolveGroup(Group(Single, 1, None, [c]), table) ==
            (Group(Single, 1, None, [Command(program, Literals(words), None)]), table)
  {
    LiteralsResolved(words, c.arguments, table);
    OneCommand(c, table);
  }

  lemma {:induction false} LiteralsResolved(words: seq<string>, arguments: seq<Named>, table: Table)
    requires |arguments| == |words| && forall i :: 0 <= i < |words| ==> arguments[i] == Literal(words[i])
    ensures ResolveArguments(arguments, table) == (Literals(words), table)
  {
    if words != [] {
      LiteralsResolved(words[1..], arguments[1..], table);
    }
  }

  // What print_script writes for a group with everything in it.
  lemma PrintedForm()
    ensures PrintGroup(Group(Or, 30, Some("r"), [Command("a", [Literal("b"), Variable("v")], Some("p")),
                                                 Command("c", [], None)])) ==
            "repeat 30 $r = \"a\" \"b\" $v @ $p || \"c\""
    ensures Combiner(And) == " | "
  {
    hide PrintCommands, Decimal, PrintRepeats, PrintResult;
    PrintedCommands();
    PrintedNumber();
    PrintedResult();
    assert PrintRepeats(30) + "$r = " == "repeat 30 $r = ";
  }

  lemma PrintedCommands()
    ensures PrintCommands(Or, [Command("a", [Literal("b"), Variable("v")], Some("p")), Command("c", [], None)]) ==
            "\"a\" \"b\" $v @ $p || \"c\""
  {
    hide PrintCommand;
    PrintedCommand();
    var x := Command("a", [Literal("b"), Variable("v")], Some("p"));
    var y := Command<string>.Command("c", [], None);
    assert [x, y][1..] == [y];
  }

  lemma PrintedNumber()
    ensures PrintRepeats(30) == "repeat 30 "
  {
    assert Decimal(3) == "3";
    assert Decimal(30) == "30";
  }

  lemma PrintedResult()
    ensures PrintResult(Some("r")) == "$r = "
  {
  }

  lemma PrintedCommand()
    ensures PrintCommand(Command("a", [Literal("b"), Variable("v")], Some("p"))) == "\"a\" \"b\" $v @ $p"
    ensures PrintCommand(Command("c", [], None)) == "\"c\""
  {
    var items: seq<Named> := [Literal("b"), Variable("v")];
    assert items[1..] == [Variable("v")] && items[1..][1..] == [];
    assert PrintArguments(items[1..], Some("p")) == " $v @ $p";
    assert PrintArguments(items, Some("p")) == " \"b\" $v @ $p";
  }

  // The line /bin/ls -l
  lemma PathIsCommand(table: Table)
    ensures Parsed(["/bin/ls -l"], table) ==
            Some(Script([Group(Single, 1, None, [Command("/bin/ls", [Literal("-l")], None)])], table))
  {
    hide Parsed;
    assert Words([" "], ["-l"]) == " -l" by { assert [" "][1..] == [] && ["-l"][1..] == []; }
    assert "" + ("/bin/ls" + Words([" "], ["-l"]) + "") == "/bin/ls -l";
    assert Literals(["-l"]) == [Literal("-l")];
    assert "/bin/ls -l"[0] != "repeat "[0];
    WordsLine("", "/bin/ls", [" "], ["-l"], "", table);
  }
}
