/** Which of the names written in a script are variables of their own, and scripts that show the limits of the
    parser of Shelllab/parse.c. */
module ScriptNames {
  import opened Options
  import opened ScriptSyntax
  import opened ScriptTable

  // ------------------------------------------- every use of a variable, in the order of the text

  function OptionVars<V>(v: Option<V>): seq<V> { if v.None? then [] else [v.value] }

  function ArgumentsVars<V>(arguments: seq<Argument<V>>): seq<V> {
    if arguments == [] then []
    else (if arguments[0].Variable? then [arguments[0].v] else []) + ArgumentsVars(arguments[1..])
  }

  function CommandVars<V>(c: Command<V>): seq<V> { ArgumentsVars(c.arguments) + OptionVars(c.pidTo) }

  function CommandsVars<V>(commands: seq<Command<V>>): seq<V> {
    if commands == [] then [] else CommandVars(commands[0]) + CommandsVars(commands[1..])
  }

  function GroupVars<V>(g: Group<V>): seq<V> { OptionVars(g.resultTo) + CommandsVars(g.commands) }

  function GroupsVars<V>(groups: seq<Group<V>>): seq<V> {
    if groups == [] then [] else GroupVars(groups[0]) + GroupsVars(groups[1..])
  }

  // The lookups of parse_variable for a list of names.
  function InternAll(names: seq<string>, table: Table): (r: (seq<nat>, Table))
    ensures |r.0| == |names| && table <= r.1
  {
    if names == [] then ([], table)
    else
      var n := |names| - 1;
      var (ids, t) := InternAll(names[..n], table);
      var (after, id) := Intern(t, names[n]);
      (ids + [id], after)
  }

  lemma {:induction false} InternLast(names: seq<string>, x: string, table: Table)
    ensures var (ids, t) := InternAll(names, table);
      var (after, id) := Intern(t, x);
      InternAll(names + [x], table) == (ids + [id], after)
  {
    hide Intern;
    assert (names + [x])[..|names|] == names;
  }

  lemma {:induction false} InternOne(name: string, table: Table)
    ensures InternAll([name], table) == ([Intern(table, name).1], Intern(table, name).0)
  {
    hide Intern;
    InternLast([], name, table);
    assert [] + [name] == [name];
    assert [] + [Intern(table, name).1] == [Intern(table, name).1];
  }

  lemma {:induction false} InternNone(table: Table)
    ensures InternAll([], table) == ([], table)
  {
  }

  lemma {:induction false} InternAppend(a: seq<string>, b: seq<string>, table: Table)
    ensures var (ids, t) := InternAll(a, table);
      var (more, after) := InternAll(b, t);
      InternAll(a + b, table) == (ids + more, after)
    decreases |b|
  {
    hide Intern, InternAll;
    var (ids, t) := InternAll(a, table);
    if b == [] {
      InternNone(t);
      assert a + b == a && ids + [] == ids;
    } else {
      var n := |b| - 1;
      var front, x := b[..n], b[n];
      assert b == front + [x];
      InternAppend(a, front, table);
      assert a + b == a + front + [x];
      var (more, u) := InternAll(front, t);
      InternLast(front, x, t);
      InternLast(a + front, x, table);
      var id := Intern(u, x).1;
      assert ids + (more + [id]) == ids + more + [id];
    }
  }

  // ------------------------------------- resolving a script interns its names in that order

  lemma {:induction false} OptionInterned(v: Option<string>, table: Table)
    ensures var (r, after) := InternOption(v, table);
      InternAll(OptionVars(v), table) == (OptionVars(r), after)
  {
    if v.Some? { InternOne(v.value, table); }
  }

  lemma {:induction false} ArgumentsInterned(arguments: seq<Named>, table: Table)
    ensures var (r, after) := ResolveArguments(arguments, table);
      InternAll(ArgumentsVars(arguments), table) == (ArgumentsVars(r), after)
    decreases |arguments|
  {
    if arguments != [] {
      var (first, t) := ResolveArgument(arguments[0], table);
      ArgumentsInterned(arguments[1..], t);
      var (r, after) := ResolveArguments(arguments, table);
      assert r[1..] == ResolveArguments(arguments[1..], t).0;
      var here := if arguments[0].Variable? then [arguments[0].v] else [];
      if arguments[0].Variable? { InternOne(arguments[0].v, table); }
      InternAppend(here, ArgumentsVars(arguments[1..]), table);
    }
  }

  lemma {:induction false} CommandInterned(c: Command<string>, table: Table)
    ensures var (r, after) := ResolveCommand(c, table);
      InternAll(CommandVars(c), table) == (CommandVars(r), after)
  {
    ArgumentsInterned(c.arguments, table);
    OptionInterned(c.pidTo, ResolveArguments(c.arguments, table).1);
    InternAppend(ArgumentsVars(c.arguments), OptionVars(c.pidTo), table);
  }

  lemma {:induction false} CommandsInterned(commands: seq<Command<string>>, table: Table)
    ensures var (r, after) := ResolveCommands(commands, table);
      InternAll(CommandsVars(commands), table) == (CommandsVars(r), after)
    decreases |commands|
  {
    hide ResolveCommand, CommandVars;
    if commands != [] {
      var (first, t) := ResolveCommand(commands[0], table);
      CommandInterned(commands[0], table);
      CommandsInterned(commands[1..], t);
      var (r, after) := ResolveCommands(commands, table);
      assert r[1..] == ResolveCommands(commands[1..], t).0;
      InternAppend(CommandVars(commands[0]), CommandsVars(commands[1..]), table);
    }
  }

  lemma {:induction false} GroupInterned(g: Group<string>, table: Table)
    ensures var (r, after) := ResolveGroup(g, table);
      InternAll(GroupVars(g), table) == (GroupVars(r), after)
  {
    OptionInterned(g.resultTo, table);
    CommandsInterned(g.commands, InternOption(g.resultTo, table).1);
    InternAppend(OptionVars(g.resultTo), CommandsVars(g.commands), table);
  }

  lemma {:induction false} GroupsInterned(groups: seq<Group<string>>, table: Table)
    ensures var (r, after) := ResolveGroups(groups, table);
      InternAll(GroupsVars(groups), table) == (GroupsVars(r), after)
    decreases |groups|
  {
    hide ResolveGroup, GroupVars;
    if groups != [] {
      var (first, t) := ResolveGroup(groups[0], table);
      GroupInterned(groups[0], table);
      GroupsInterned(groups[1..], t);
      var (r, after) := ResolveGroups(groups, table);
      assert r[1..] == ResolveGroups(groups[1..], t).0;
      InternAppend(GroupVars(groups[0]), GroupsVars(groups[1..]), table);
    }
  }

  // ------------------------------------------------------------- names and variables

  lemma {:induction false} FindLater(table: Table, later: Table, name: string)
    requires table <= later && Find(table, name) < |table|
    ensures Find(later, name) == Find(table, name)
  {
    FindIs(later, name, Find(table, name));
  }

  // Each name is found where it was put; what is in the table was written.
  ghost predicate Found(names: seq<string>, ids: seq<nat>, table: Table) {
    && |ids| == |names|
    && (forall i :: 0 <= i < |names| ==> ids[i] == Find(table, names[i]) && ids[i] < |table|)
    && (forall k :: 0 <= k < |table| ==> table[k] in names)
  }

  lemma {:induction false} FoundStep(names: seq<string>, ids: seq<nat>, t: Table, x: string)
    requires Found(names, ids, t)
    ensures var (after, id) := Intern(t, x);
      Found(names + [x], ids + [id], after)
  {
    var (after, id) := Intern(t, x);
    assert id == Find(after, x) by {
      if id == |t| { FindIs(after, x, id); }
    }
    var all, where := names + [x], ids + [id];
    forall i | 0 <= i < |all| ensures where[i] == Find(after, all[i]) && where[i] < |after| {
      if i < |names| { FindLater(t, after, names[i]); }
    }
    forall k | 0 <= k < |after| ensures after[k] in all {
      if k < |t| {
        assert t[k] in names;
        assert after[k] == t[k];
      } else {
        assert all[|names|] == x;
      }
    }
  }

  lemma {:induction false} PrefixStep(t: Table, x: string)
    requires NoLatePrefix(t)
    ensures NoLatePrefix(Intern(t, x).0)
  {
  }

  lemma NothingFound()
    ensures Found([], [], []) && NoLatePrefix([])
  {
  }

  lemma {:induction false} NamesFound(names: seq<string>)
    ensures var (ids, table) := InternAll(names, []);
      Found(names, ids, table) && NoLatePrefix(table)
  {
    hide Found, Intern, InternAll, NoLatePrefix;
    if names == [] {
      InternNone([]);
      NothingFound();
    } else {
      var n := |names| - 1;
      NamesFound(names[..n]);
      InternLast(names[..n], names[n], []);
      assert names == names[..n] + [names[n]];
      var (ids, t) := InternAll(names[..n], []);
      FoundStep(names[..n], ids, t, names[n]);
      PrefixStep(t, names[n]);
    }
  }

  ghost predicate FirstAt(names: seq<string>, i: int) {
    0 <= i < |names| && forall j :: 0 <= j < i ==> names[j] != names[i]
  }

  // In the order of first occurrence, no name begins an earlier, longer one.
  ghost predicate NoNameBegins(names: seq<string>) {
    forall i, j :: 0 <= i < j && FirstAt(names, i) && FirstAt(names, j) ==> !(names[j] < names[i])
  }

  lemma {:induction false} SomeFirst(names: seq<string>, name: string) returns (i: int)
    requires name in names
    ensures FirstAt(names, i) && names[i] == name
  {
    i := 0;
    while names[i] != name
      invariant 0 <= i < |names| && (forall j :: 0 <= j < i ==> names[j] != name) && name in names[i..]
      decreases |names| - i
    {
      i := i + 1;
    }
  }

  lemma {:induction false} PrefixBegins(names: seq<string>, n: nat)
    requires NoNameBegins(names) && n <= |names|
    ensures NoNameBegins(names[..n])
  {
    var pre := names[..n];
    forall i, j | 0 <= i < j && FirstAt(pre, i) && FirstAt(pre, j) ensures !(pre[j] < pre[i]) {
      FirstInPrefix(names, n, i);
      FirstInPrefix(names, n, j);
      NotBegun(names, i, j);
    }
  }

  lemma {:induction false} FirstInPrefix(names: seq<string>, n: nat, i: int)
    requires n <= |names| && FirstAt(names[..n], i)
    ensures FirstAt(names, i) && names[..n][i] == names[i]
  {
    assert forall j :: 0 <= j <= i ==> names[..n][j] == names[j];
  }

  lemma {:induction false} NotBegun(names: seq<string>, i: int, j: int)
    requires NoNameBegins(names) && 0 <= i < j && FirstAt(names, i) && FirstAt(names, j)
    ensures !(names[j] < names[i])
  {
  }

  // Then every name has an entry of its own.
  ghost predicate Own(names: seq<string>, ids: seq<nat>, table: Table) {
    |ids| == |names| && forall i :: 0 <= i < |names| ==> ids[i] < |table| && table[ids[i]] == names[i]
  }

  lemma {:induction false} OwnEntries(names: seq<string>)
    requires NoNameBegins(names)
    ensures var (ids, table) := InternAll(names, []); Own(names, ids, table)
  {
    if names == [] {
    } else {
      hide Found, Own, Intern, InternAll, NoNameBegins;
      var n := |names| - 1;
      var pre, x := names[..n], names[n];
      assert names == pre + [x];
      PrefixBegins(names, n);
      OwnEntries(pre);
      NamesFound(pre);
      InternLast(pre, x, []);
      var (ids, t) := InternAll(pre, []);
      OwnStep(pre, x, ids, t);
    }
  }

  lemma {:induction false} OwnStep(pre: seq<string>, x: string, ids: seq<nat>, t: Table)
    requires NoNameBegins(pre + [x]) && Own(pre, ids, t) && Found(pre, ids, t)
    ensures var (after, id) := Intern(t, x); Own(pre + [x], ids + [id], after)
  {
    hide NoNameBegins;
    var (after, id) := Intern(t, x);
    var all, where := pre + [x], ids + [id];
    if id < |t| { FoundIsOwn(pre, x, ids, t); }
    forall i | 0 <= i < |all| ensures where[i] < |after| && after[where[i]] == all[i] {
      if i < |pre| { assert after[ids[i]] == t[ids[i]]; }
    }
  }

  lemma {:induction false} FoundIsOwn(pre: seq<string>, x: string, ids: seq<nat>, t: Table)
    requires NoNameBegins(pre + [x]) && Own(pre, ids, t) && Found(pre, ids, t) && Find(t, x) < |t|
    ensures t[Find(t, x)] == x
  {
    var k := Find(t, x);
    assert t[k] in pre;
    if x in pre {
      var i :| 0 <= i < |pre| && pre[i] == x;
      assert ids[i] == k;
    } else {
      NewBeginsNothing(pre, x, t[k]);
    }
  }

  lemma {:induction false} NewBeginsNothing(pre: seq<string>, x: string, earlier: string)
    requires NoNameBegins(pre + [x]) && x !in pre && earlier in pre
    ensures !(x < earlier)
  {
    hide NoNameBegins;
    var names := pre + [x];
    var i := SomeFirst(pre, earlier);
    assert names[..|pre|] == pre;
    FirstInPrefix(names, |pre|, i);
    assert FirstAt(names, |pre|);
    NotBegun(names, i, |pre|);
  }

  // A name that begins an earlier one shares its variable.
  lemma {:induction false} SharedEntry(names: seq<string>, i: int, j: int) returns (m: int)
    requires 0 <= i < j && FirstAt(names, i) && FirstAt(names, j) && names[j] < names[i]
    ensures 0 <= m < j && names[m] != names[j] && InternAll(names, []).0[m] == InternAll(names, []).0[j]
  {
    hide InternAll, Intern, Found, NoLatePrefix;
    var (ids, table) := InternAll(names, []);
    NamesFound(names);
    var pre, rest := names[..j], names[j..];
    assert names == pre + rest;
    NamesFound(pre);
    InternAppend(pre, rest, []);
    var (before, t) := InternAll(pre, []);
    assert pre[i] == names[i];
    var k := BeginsFound(pre, before, t, names[j], i);
    FindLater(t, table, names[j]);
    m :| 0 <= m < j && pre[m] == t[k];
    KeyOf(table, k);
    SameEntry(names, ids, table, m, j);
    FirstDiffers(names, m, j);
  }

  lemma {:induction false} SameEntry(names: seq<string>, ids: seq<nat>, table: Table, m: int, j: int)
    requires Found(names, ids, table) && 0 <= m < |names| && 0 <= j < |names|
    requires Find(table, names[m]) == Find(table, names[j])
    ensures ids[m] == ids[j]
  {
  }

  lemma {:induction false} FirstDiffers(names: seq<string>, m: int, j: int)
    requires 0 <= m < j && FirstAt(names, j)
    ensures names[m] != names[j]
  {
  }

  lemma {:induction false} BeginsFound(pre: seq<string>, ids: seq<nat>, t: Table, b: string, i: int) returns (k: nat)
    requires Found(pre, ids, t) && 0 <= i < |pre| && b < pre[i]
    ensures k == Find(t, b) < |t| && t[k] in pre
  {
    assert b <= t[ids[i]];
    k := Find(t, b);
  }

  lemma {:induction false} KeyOf(table: Table, k: nat)
    requires NoLatePrefix(table) && k < |table|
    ensures Find(table, table[k]) == k
  {
    InternAgain(table, k);
  }

  ghost predicate TellsApart(names: seq<string>, ids: seq<nat>)
    requires |ids| == |names|
  {
    forall i, j :: 0 <= i < |names| && 0 <= j < |names| && names[i] != names[j] ==> ids[i] != ids[j]
  }

  ghost predicate OneEach(names: seq<string>, ids: seq<nat>)
    requires |ids| == |names|
  {
    forall i, j :: 0 <= i < |names| && 0 <= j < |names| && names[i] == names[j] ==> ids[i] == ids[j]
  }

  lemma {:induction false} FoundOneEach(names: seq<string>, ids: seq<nat>, table: Table)
    requires Found(names, ids, table)
    ensures OneEach(names, ids)
  {
  }

  lemma {:induction false} OwnTellsApart(names: seq<string>, ids: seq<nat>, table: Table)
    requires Own(names, ids, table)
    ensures TellsApart(names, ids)
  {
  }

  // All different names of a list get different variables exactly when, in the order of first occurrence,
  // none is a proper prefix of an earlier one.
  lemma {:induction false} OwnVariables(names: seq<string>)
    ensures var ids := InternAll(names, []).0;
      OneEach(names, ids) && (NoNameBegins(names) <==> TellsApart(names, ids))
  {
    hide InternAll, Found, Own;
    var (ids, table) := InternAll(names, []);
    NamesFound(names);
    FoundOneEach(names, ids, table);
    if NoNameBegins(names) {
      OwnEntries(names);
      OwnTellsApart(names, ids, table);
    } else {
      var i, j :| 0 <= i < j && FirstAt(names, i) && FirstAt(names, j) && names[j] < names[i];
      var m := SharedEntry(names, i, j);
    }
  }

  // The same for a script, from the lines a user writes to the variables the parser hands out.
  lemma {:induction false} OwnVariablesOfScript(lines: seq<string>)
    requires Parsed(lines, []).Some?
    ensures var names := GroupsVars(ReadLines(lines).value);
      var ids := GroupsVars(Parsed(lines, []).value.groups);
      && |ids| == |names|
      && OneEach(names, ids) && (NoNameBegins(names) <==> TellsApart(names, ids))
  {
    hide InternAll, NoNameBegins, TellsApart, OneEach, ReadLines, ResolveGroups;
    GroupsInterned(ReadLines(lines).value, []);
    OwnVariables(GroupsVars(ReadLines(lines).value));
  }

  // ------------------------------------------------ where the parser falls short

  // A script whose second name begins the first: both get one variable.
  const SHARING: string := "\"x\" $ab $a"

  function SharingGroup(): Group<string> {
    Group(Single, 1, None, [Command("x", [Variable("ab"), Variable("a")], None)])
  }

  lemma SharingRead()
    ensures ReadLines([SHARING]) == Some([SharingGroup()])
  {
    hide ReadGroup, CleanGroup, PrintGroup;
    var g := SharingGroup();
    SharingPrinted();
    ReadLinesBack([g]);
    assert PrintLines([g]) == [SHARING];
  }

  lemma SharingPrinted()
    ensures CleanGroup(SharingGroup()) && PrintGroup(SharingGroup()) == SHARING
  {
    var last := PrintArguments([Variable("a")], None);
    assert last == " $a";
    var both := PrintArguments([Variable("ab"), Variable("a")], None);
    assert [Argument<string>.Variable("ab"), Variable("a")][1..] == [Variable("a")];
    assert both == " $ab $a";
  }

  // The names are different, the variables are not.
  lemma NamesShareVariable()
    ensures Parsed([SHARING], []) ==
            Some(Script([Group(Single, 1, None, [Command("x", [Variable(0), Variable(0)], None)])], ["ab"]))
  {
    hide ReadLines, Intern;
    SharingRead();
    SharingInterned();
    var x, y := Argument<string>.Variable("ab"), Argument<string>.Variable("a");
    OneArgument(y, ["ab"]);
    assert [x, y][1..] == [y] && [x, y][0] == x;
    assert ResolveArguments([x, y], []) == ([Variable(0)] + [Variable(0)], ["ab"]);
    assert [Argument<nat>.Variable(0)] + [Variable(0)] == [Variable(0), Variable(0)];
    var c := Command("x", [x, y], None);
    assert ResolveCommand(c, []) == (Command("x", [Variable(0), Variable(0)], None), ["ab"]);
    OneCommand(c, []);
    assert SharingGroup().commands == [c];
    OneGroup(SharingGroup(), []);
  }

  lemma SharingInterned()
    ensures Intern([], "ab") == (["ab"], 0) && Intern(["ab"], "a") == (["ab"], 0)
  {
    assert [] + ["ab"] == ["ab"];
    assert "a" <= ["ab"][0];
  }

  lemma {:induction false} OneArgument(a: Named, table: Table)
    ensures var (r, after) := ResolveArgument(a, table); ResolveArguments([a], table) == ([r], after)
  {
    var (r, after) := ResolveArgument(a, table);
    assert [a][1..] == [] && [r] + [] == [r];
  }

  lemma {:induction false} OneCommand(c: Command<string>, table: Table)
    ensures var (r, after) := ResolveCommand(c, table); ResolveCommands([c], table) == ([r], after)
  {
    hide ResolveCommand;
    var (r, after) := ResolveCommand(c, table);
    assert [c][1..] == [] && [r] + [] == [r];
  }

  lemma {:induction false} OneGroup(g: Group<string>, table: Table)
    ensures var (r, after) := ResolveGroup(g, table); ResolveGroups([g], table) == ([r], after)
  {
    hide ResolveGroup;
    var (r, after) := ResolveGroup(g, table);
    assert [g][1..] == [] && [r] + [] == [r];
  }

  ghost predicate AllLetters(s: string) { forall i :: 0 <= i < |s| ==> IsLetter(s[i]) }

  lemma {:induction false} ReadLetters(s: string)
    requires AllLetters(s)
    ensures ReadLiteral(s) == Some(Read(s, ""))
  {
    if s != [] {
      ReadLetters(s[1..]);
      assert IsLetter(s[0]) && [s[0]] + s[1..] == s;
    }
  }

  function Plainly(program: string): Group<string> {
    Group(Single, 1, None, [Command(program, [], None)])
  }

  // A line of letters is a command; printed, it is two quotes longer.
  lemma {:induction false} LettersAreCommand(s: string)
    requires AllLetters(s) && s != [] && s[0] == 'x'
    ensures ReadGroup(s) == Some(Plainly(s)) && PrintGroup(Plainly(s)) == Quote(s)
  {
    ReadLetters(s);
    ClosedRest("");
    NoSkip(s);
    SkipNothing();
  }

  lemma {:induction false} LettersFit(s: string)
    requires AllLetters(s) && s != [] && s[0] == 'x' && |s| < MAX_LINE_LENGTH - 2
    ensures Ascii(s) && Fits(s) && !SkippedLine(s)
  {
    NoSkip(s);
  }

  // A line of the longest kind that is read, whose printed form is not.
  lemma {:induction false} PrintedLineOutgrows(line: string)
    requires AllLetters(line) && line != [] && line[0] == 'x' && MAX_LINE_LENGTH - 5 < |line| < MAX_LINE_LENGTH - 2
    ensures Parsed([line], []) == Some(Script([Group(Single, 1, None, [Command(line, [], None)])], []))
    ensures var script := Parsed([line], []).value;
      && Known(script.groups, script.table)
      && Printed(script) == [Quote(line)]
      && Parsed(Printed(script), []) == None
  {
    hide ReadGroup, PrintGroup;
    LettersAreCommand(line);
    LettersFit(line);
    var c, g := Command<string>.Command(line, [], None), Plainly(line);
    assert ReadLines([line]) == Some([g]) by { assert [line][1..] == [] && [g] + [] == [g]; }
    OneCommand(c, []);
    OneGroup(g, []);
    var groups := Parsed([line], []).value.groups;
    assert NameGroups(groups, []) == [g] by {
      assert NameCommands(groups[0].commands, []) == [c];
    }
    assert PrintLines([g]) == [Quote(line)] by { assert [g][1..] == []; }
  }

  function Xs(n: nat): (s: string)
    ensures |s| == n && AllLetters(s) && (n > 0 ==> s[0] == 'x')
  {
    if n == 0 then "" else "x" + Xs(n - 1)
  }

  lemma LongLine()
    ensures var line := Xs(MAX_LINE_LENGTH - 3);
      Parsed([line], []).Some? && Known(Parsed([line], []).value.groups, Parsed([line], []).value.table)
      && Parsed(Printed(Parsed([line], []).value), []) == None
  {
    hide Xs, Parsed, Printed;
    PrintedLineOutgrows(Xs(MAX_LINE_LENGTH - 3));
  }
}
