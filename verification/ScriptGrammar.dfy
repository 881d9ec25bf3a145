/** The grammar of scripts as their authors write them, and that Shelllab/parse.c reads exactly this grammar. */
module ScriptGrammar {
  import opened Options
  import opened ScriptSyntax
  import opened ScriptTable

  // ------------------------------------------------------------- characters

  // Space, tab, newline, vertical tab, form feed and carriage return.
  predicate Blank(c: char) { c as int == 32 || 9 <= c as int <= 13 }

  predicate NameChar(c: char) { 'a' <= c <= 'z' || 'A' <= c <= 'Z' || '0' <= c <= '9' }

  predicate WordChar(c: char) {
    'a' <= c <= 'z' || 'A' <= c <= 'Z' || '0' <= c <= '9' || c in ".:_-=/"
  }

  ghost predicate Blanks(s: string) { forall i :: 0 <= i < |s| ==> Blank(s[i]) }

  // Where a word or a name may stop: at the end, a blank or a bar.
  predicate Stops(s: string) { s == [] || Blank(s[0]) || s[0] == '|' }

  // Where a command may stop.
  predicate EndOrBar(s: string) { s == [] || s[0] == '|' }

  lemma CharactersAre(c: char)
    ensures Blank(c) <==> IsSpace(c)
    ensures NameChar(c) <==> IsAlnum(c)
    ensures WordChar(c) <==> IsLetter(c)
    ensures WordChar(c) ==> !Blank(c) && c != '"' && c != '$' && c != '@' && c != '|'
    ensures NameChar(c) ==> WordChar(c)
  {
  }

  lemma StopsAre(s: string)
    ensures Stops(s) <==> AtStop(s)
    ensures EndOrBar(s) ==> Stops(s) && (s != [] ==> !Blank(s[0]))
  {
    if s != [] { CharactersAre(s[0]); }
  }

  lemma {:induction false} SkipBlanks(gap: string, s: string)
    requires Blanks(gap) && (s == [] || !Blank(s[0]))
    ensures SkipSpace(gap + s) == s
  {
    hide Blank, IsSpace;
    if gap == [] {
      assert gap + s == s;
      if s != [] { CharactersAre(s[0]); }
    } else {
      CharactersAre(gap[0]);
      assert (gap + s)[1..] == gap[1..] + s;
      SkipBlanks(gap[1..], s);
    }
  }

  lemma {:induction false} SkipSpelled(s: string) returns (gap: string)
    ensures Blanks(gap) && s == gap + SkipSpace(s)
    ensures SkipSpace(s) == [] || !Blank(SkipSpace(s)[0])
  {
    if s != [] { CharactersAre(s[0]); }
    if s != [] && IsSpace(s[0]) {
      var more := SkipSpelled(s[1..]);
      gap := [s[0]] + more;
      assert s == [s[0]] + s[1..];
    } else {
      gap := "";
      assert s == [] + s;
    }
  }

  // --------------------------------------------------------------- literals

  // A literal is put together from words and quoted texts.
  datatype Fragment = Bare(text: string) | Quoted(text: string)

  ghost predicate FragmentOk(f: Fragment) {
    match f
    case Bare(text) => text != [] && forall i :: 0 <= i < |text| ==> WordChar(text[i])
    case Quoted(text) => forall i :: 0 <= i < |text| ==> text[i] != '"'
  }

  ghost predicate FragmentsOk(fs: seq<Fragment>) { forall i :: 0 <= i < |fs| ==> FragmentOk(fs[i]) }

  function FragmentText(f: Fragment): string {
    match f
    case Bare(text) => text
    case Quoted(text) => "\"" + text + "\""
  }

  function FragmentsText(fs: seq<Fragment>): string {
    if fs == [] then "" else FragmentText(fs[0]) + FragmentsText(fs[1..])
  }

  function FragmentsValue(fs: seq<Fragment>): string {
    if fs == [] then "" else fs[0].text + FragmentsValue(fs[1..])
  }

  function Prefixed(text: string, r: Option<Read<string>>): Option<Read<string>> {
    match r
    case None => None
    case Some(read) => Some(Read(text + read.value, read.rest))
  }

  lemma {:induction false} WordRead(text: string, s: string)
    requires forall i :: 0 <= i < |text| ==> WordChar(text[i])
    ensures ReadLiteral(text + s) == Prefixed(text, ReadLiteral(s))
  {
    hide WordChar, IsLetter, AtStop;
    if text == [] {
      assert text + s == s;
      if ReadLiteral(s).Some? { assert [] + ReadLiteral(s).value.value == ReadLiteral(s).value.value; }
    } else {
      CharactersAre(text[0]);
      assert (text + s)[1..] == text[1..] + s;
      WordRead(text[1..], s);
      if ReadLiteral(s).Some? {
        var v := ReadLiteral(s).value.value;
        assert [text[0]] + (text[1..] + v) == text + v;
      }
    }
  }

  lemma {:induction false} QuotedRead(text: string, s: string)
    requires forall i :: 0 <= i < |text| ==> text[i] != '"'
    ensures ReadLiteral("\"" + text + "\"" + s) == Prefixed(text, ReadLiteral(s))
  {
    var all := "\"" + text + "\"" + s;
    assert all[1..] == text + "\"" + s;
    ReadQuotedBack(text, s);
  }

  lemma {:induction false} FragmentsRead(fs: seq<Fragment>, s: string)
    requires FragmentsOk(fs)
    ensures ReadLiteral(FragmentsText(fs) + s) == Prefixed(FragmentsValue(fs), ReadLiteral(s))
  {
    hide ReadLiteral, FragmentOk;
    if fs == [] {
      assert "" + s == s;
      if ReadLiteral(s).Some? { assert [] + ReadLiteral(s).value.value == ReadLiteral(s).value.value; }
    } else {
      var more := FragmentsText(fs[1..]) + s;
      assert FragmentsText(fs) + s == FragmentText(fs[0]) + more;
      FragmentRead(fs[0], more);
      FragmentsRead(fs[1..], s);
      if ReadLiteral(s).Some? {
        var v := ReadLiteral(s).value.value;
        assert fs[0].text + (FragmentsValue(fs[1..]) + v) == FragmentsValue(fs) + v;
      }
    }
  }

  lemma {:induction false} FragmentRead(f: Fragment, s: string)
    requires FragmentOk(f)
    ensures ReadLiteral(FragmentText(f) + s) == Prefixed(f.text, ReadLiteral(s))
  {
    hide ReadLiteral;
    match f
    case Bare(text) => WordRead(text, s);
    case Quoted(text) => QuotedRead(text, s);
  }

  lemma {:induction false} LiteralStops(s: string)
    requires Stops(s)
    ensures ReadLiteral(s) == Some(Read("", s))
  {
    StopsAre(s);
    if s != [] { CharactersAre(s[0]); }
  }

  // A literal is read whole, up to the end, a blank or a bar.
  lemma {:induction false} LiteralRead(fs: seq<Fragment>, s: string)
    requires FragmentsOk(fs) && Stops(s)
    ensures ReadLiteral(FragmentsText(fs) + s) == Some(Read(FragmentsValue(fs), s))
  {
    hide ReadLiteral;
    FragmentsRead(fs, s);
    LiteralStops(s);
    assert FragmentsValue(fs) + "" == FragmentsValue(fs);
  }

  // Any other character makes it fail, and so does a quote that is never closed.
  lemma {:induction false} LiteralFails(fs: seq<Fragment>, s: string)
    requires FragmentsOk(fs) && !Stops(s) && !WordChar(s[0])
    requires s[0] == '"' ==> forall i :: 1 <= i < |s| ==> s[i] != '"'
    ensures ReadLiteral(FragmentsText(fs) + s) == None
  {
    FragmentsRead(fs, s);
    StopsAre(s);
    CharactersAre(s[0]);
    if s[0] == '"' {
      forall i | 0 <= i < |s[1..]| ensures s[1..][i] != '"' {
        assert s[1..][i] == s[i + 1];
      }
      NeverClosed(s[1..]);
    }
  }

  lemma {:induction false} NeverClosed(s: string)
    requires forall i :: 0 <= i < |s| ==> s[i] != '"'
    ensures ReadQuoted(s) == None
  {
    if s != [] { NeverClosed(s[1..]); }
  }

  lemma {:induction false} QuotedSpelled(s: string)
    requires ReadQuoted(s).Some?
    ensures var r := ReadQuoted(s).value;
      s == r.value + "\"" + r.rest && forall i :: 0 <= i < |r.value| ==> r.value[i] != '"'
  {
    if s[0] == '"' {
      assert s == "" + "\"" + s[1..];
    } else {
      QuotedSpelled(s[1..]);
      var r := ReadQuoted(s[1..]).value;
      assert s == [s[0]] + s[1..];
      assert [s[0]] + (r.value + "\"" + r.rest) == [s[0]] + r.value + "\"" + r.rest;
    }
  }

  ghost predicate Spells(fs: seq<Fragment>, s: string, r: Read<string>) {
    FragmentsOk(fs) && s == FragmentsText(fs) + r.rest && r.value == FragmentsValue(fs) && Stops(r.rest)
  }

  lemma {:induction false} SpellsFront(f: Fragment, more: seq<Fragment>, s: string, t: string, r: Read<string>)
    requires FragmentOk(f) && Spells(more, t, r) && s == FragmentText(f) + t
    ensures Spells([f] + more, s, Read(f.text + r.value, r.rest)) && |r.rest| < |s|
  {
    hide FragmentsText, FragmentsValue, FragmentText, FragmentsOk, FragmentOk, Stops;
    FragmentsFront(f, more);
    assert FragmentText(f) + (FragmentsText(more) + r.rest) == FragmentText(f) + FragmentsText(more) + r.rest;
  }

  // Whatever is read as a literal is spelt in this way.
  lemma {:induction false} LiteralSpelled(s: string) returns (fs: seq<Fragment>)
    requires ReadLiteral(s).Some?
    ensures Spells(fs, s, ReadLiteral(s).value) && (fs == [] <==> |ReadLiteral(s).value.rest| == |s|)
    decreases |s|
  {
    hide Spells, Stops, AtStop, WordChar, IsLetter;
    if Starts(s, '"') {
      QuotedSpelled(s[1..]);
      var q := ReadQuoted(s[1..]).value;
      var more := LiteralSpelled(q.rest);
      var f := Quoted(q.value);
      fs := [f] + more;
      assert s == "\"" + s[1..];
      assert s == FragmentText(f) + q.rest;
      SpellsFront(f, more, s, q.rest, ReadLiteral(q.rest).value);
    } else if s != [] && IsLetter(s[0]) {
      CharactersAre(s[0]);
      var more := LiteralSpelled(s[1..]);
      var f := Bare([s[0]]);
      fs := [f] + more;
      assert s == [s[0]] + s[1..];
      SpellsFront(f, more, s, s[1..], ReadLiteral(s[1..]).value);
    } else {
      fs := [];
      StopsAre(s);
      NothingSpells(s);
    }
  }

  lemma {:induction false} NothingSpells(s: string)
    requires Stops(s)
    ensures Spells([], s, Read("", s))
  {
    assert "" + s == s;
  }

  lemma {:induction false} FragmentsFront(f: Fragment, more: seq<Fragment>)
    requires FragmentOk(f) && FragmentsOk(more)
    ensures FragmentsOk([f] + more) && FragmentText(f) != []
    ensures FragmentsText([f] + more) == FragmentText(f) + FragmentsText(more)
    ensures FragmentsValue([f] + more) == f.text + FragmentsValue(more)
  {
    assert ([f] + more)[1..] == more;
  }

  lemma {:induction false} FragmentsStart(fs: seq<Fragment>)
    requires FragmentsOk(fs) && fs != []
    ensures FragmentsText(fs) != [] && (WordChar(FragmentsText(fs)[0]) || FragmentsText(fs)[0] == '"')
  {
    assert FragmentOk(fs[0]);
  }

  // -------------------------------------------------------------- commands

  // A dollar sign and a name of letters and digits.
  ghost predicate NameOk(name: string) { name != [] && forall i :: 0 <= i < |name| ==> NameChar(name[i]) }

  lemma NamesAre(name: string)
    ensures NameOk(name) <==> CleanName(name)
  {
    hide NameChar, IsAlnum;
    forall i | 0 <= i < |name| ensures NameChar(name[i]) <==> IsAlnum(name[i]) { CharactersAre(name[i]); }
  }

  lemma {:induction false} NameRead(name: string, s: string)
    requires NameOk(name) && Stops(s)
    ensures ReadVariable("$" + name + s) == Some(Read(name, s))
  {
    NamesAre(name);
    StopsAre(s);
    ReadVariableBack(name, s);
  }

  lemma {:induction false} NameSpelled(s: string)
    requires Starts(s, '$') && ReadVariable(s).Some?
    ensures var r := ReadVariable(s).value; NameOk(r.value) && Stops(r.rest) && s == "$" + r.value + r.rest
  {
    var r := ReadVariable(s).value;
    NamesAre(r.value);
    StopsAre(r.rest);
    assert s == "$" + s[1..] && s[1..] == r.value + r.rest;
  }

  // An argument behind its blanks.
  datatype Item = Word(fragments: seq<Fragment>) | Use(name: string)

  datatype Gapped = Gapped(gap: string, item: Item)

  // The at sign, behind blanks and before blanks, and the variable that takes the process id.
  datatype At = At(gap: string, inner: string, name: string)

  datatype WrittenCommand = WrittenCommand(program: seq<Fragment>, items: seq<Gapped>, at: Option<At>, after: string)

  ghost predicate ItemOk(x: Gapped) {
    && Blanks(x.gap) && x.gap != []
    && if x.item.Word? then FragmentsOk(x.item.fragments) && x.item.fragments != [] else NameOk(x.item.name)
  }

  ghost predicate AtOk(at: At) { Blanks(at.gap) && at.gap != [] && Blanks(at.inner) && NameOk(at.name) }

  ghost predicate ItemsOk(items: seq<Gapped>) { forall i :: 0 <= i < |items| ==> ItemOk(items[i]) }

  ghost predicate CommandOk(c: WrittenCommand) {
    && FragmentsOk(c.program) && c.program != [] && ItemsOk(c.items)
    && (c.at.Some? ==> AtOk(c.at.value)) && Blanks(c.after)
  }

  function ItemText(x: Gapped): string {
    x.gap + if x.item.Word? then FragmentsText(x.item.fragments) else "$" + x.item.name
  }

  function ItemsText(items: seq<Gapped>): string {
    if items == [] then "" else ItemText(items[0]) + ItemsText(items[1..])
  }

  function EndText(at: Option<At>, after: string): string {
    (if at.None? then "" else at.value.gap + "@" + at.value.inner + "$" + at.value.name) + after
  }

  function CommandText(c: WrittenCommand): string {
    FragmentsText(c.program) + (ItemsText(c.items) + EndText(c.at, c.after))
  }

  function ItemValue(x: Gapped): Named {
    if x.item.Word? then Literal(FragmentsValue(x.item.fragments)) else Variable(x.item.name)
  }

  function ItemsValue(items: seq<Gapped>): (r: seq<Named>)
    ensures |r| == |items| && forall i :: 0 <= i < |r| ==> r[i] == ItemValue(items[i])
  {
    if items == [] then [] else [ItemValue(items[0])] + ItemsValue(items[1..])
  }

  function AtValue(at: Option<At>): Option<string> { if at.None? then None else Some(at.value.name) }

  function CommandValue(c: WrittenCommand): Command<string> {
    Command(FragmentsValue(c.program), ItemsValue(c.items), AtValue(c.at))
  }

  lemma {:induction false} ItemRead(x: Gapped, s: string)
    requires ItemOk(x) && Stops(s)
    ensures ReadArguments(ItemText(x) + s) == Prepend(ItemValue(x), ReadArguments(s))
  {
    var b := (if x.item.Word? then FragmentsText(x.item.fragments) else "$" + x.item.name) + s;
    assert ItemText(x) + s == x.gap + b;
    if x.item.Word? {
      FragmentsStart(x.item.fragments);
      CharactersAre(b[0]);
      SkipBlanks(x.gap, b);
      LiteralRead(x.item.fragments, s);
    } else {
      SkipBlanks(x.gap, b);
      assert b == "$" + x.item.name + s;
      NameRead(x.item.name, s);
    }
    hide ReadArguments, SkipSpace, ReadLiteral, FragmentsText;
  }

  lemma {:induction false} PidRead(a: At, after: string, tail: string)
    requires AtOk(a) && Blanks(after) && EndOrBar(tail)
    ensures ReadPidTo(a.inner + ("$" + a.name + (after + tail))) == Some(Read(Tail([], Some(a.name)), tail))
  {
    hide Blank, IsSpace, ReadVariable, AtStop, Stops;
    var v := "$" + a.name + (after + tail);
    BlanksExample();
    StopsAre(tail);
    SkipBlanks(after, tail);
    SkipBlanks(a.inner, v);
    AfterStops(after, tail);
    NameRead(a.name, after + tail);
  }

  lemma {:induction false} EndRead(at: Option<At>, after: string, tail: string)
    requires (at.Some? ==> AtOk(at.value)) && Blanks(after) && EndOrBar(tail)
    ensures ReadArguments(EndText(at, after) + tail) == Some(Read(Tail([], AtValue(at)), tail))
  {
    hide Blank, IsSpace, ReadLiteral, ReadVariable, WordChar, AtStop, Stops, ReadPidTo, SkipSpace;
    StopsAre(tail);
    if at.None? {
      SkipBlanks(after, tail);
      assert EndText(at, after) + tail == after + tail;
      LiteralStops(tail);
    } else {
      var a := at.value;
      var rest := a.inner + ("$" + a.name + (after + tail));
      assert EndText(at, after) + tail == a.gap + ("@" + rest);
      BlanksExample();
      SkipBlanks(a.gap, "@" + rest);
      assert ("@" + rest)[1..] == rest;
      PidRead(a, after, tail);
    }
  }

  lemma BlanksExample()
    ensures !Blank('@') && !Blank('$') && !Blank('|') && !Blank('=') && !Blank('r')
  {
  }

  lemma {:induction false} AfterStops(after: string, tail: string)
    requires Blanks(after) && EndOrBar(tail)
    ensures Stops(after + tail)
  {
    if after == [] { assert after + tail == tail; }
  }

  lemma {:induction false} ItemsStop(items: seq<Gapped>, at: Option<At>, after: string, tail: string)
    requires ItemsOk(items) && (at.Some? ==> AtOk(at.value)) && Blanks(after) && EndOrBar(tail)
    ensures Stops(ItemsText(items) + (EndText(at, after) + tail))
  {
    hide Blank;
    if items != [] {
      assert ItemOk(items[0]);
      var s := ItemsText(items) + (EndText(at, after) + tail);
      assert s[0] == items[0].gap[0];
    } else if at.Some? {
      var s := ItemsText(items) + (EndText(at, after) + tail);
      assert s[0] == at.value.gap[0];
    } else {
      assert ItemsText(items) + (EndText(at, after) + tail) == after + tail;
      AfterStops(after, tail);
    }
  }

  lemma {:induction false} ItemsRead(items: seq<Gapped>, at: Option<At>, after: string, tail: string)
    requires ItemsOk(items) && (at.Some? ==> AtOk(at.value)) && Blanks(after) && EndOrBar(tail)
    ensures ReadArguments(ItemsText(items) + (EndText(at, after) + tail)) ==
            Some(Read(Tail(ItemsValue(items), AtValue(at)), tail))
  {
    hide ReadArguments, ItemOk, AtOk, ItemText, ItemValue, EndText, Stops, EndOrBar, Blanks;
    var end := EndText(at, after) + tail;
    if items == [] {
      EndRead(at, after, tail);
      assert "" + end == end;
    } else {
      var s := ItemsText(items[1..]) + end;
      ItemsRead(items[1..], at, after, tail);
      ItemsStop(items[1..], at, after, tail);
      ItemRead(items[0], s);
      assert ItemsText(items) + end == ItemText(items[0]) + s;
    }
  }

  // A written command is read whole, with its words, variables and at sign.
  lemma {:induction false} CommandRead(c: WrittenCommand, tail: string)
    requires CommandOk(c) && EndOrBar(tail)
    ensures ReadCommand(CommandText(c) + tail) == Some(Read(CommandValue(c), tail))
  {
    hide ReadArguments, ReadLiteral, ItemsText, EndText, FragmentsText, Stops, ItemsOk, FragmentsOk, AtOk;
    var s := ItemsText(c.items) + (EndText(c.at, c.after) + tail);
    assert CommandText(c) + tail == FragmentsText(c.program) + s;
    ItemsStop(c.items, c.at, c.after, tail);
    ItemsRead(c.items, c.at, c.after, tail);
    LiteralRead(c.program, s);
    FragmentsStart(c.program);
  }

  ghost predicate ArgsSpelled(items: seq<Gapped>, at: Option<At>, after: string, s: string, r: Read<Tail>) {
    && ItemsOk(items) && (at.Some? ==> AtOk(at.value)) && Blanks(after) && EndOrBar(r.rest)
    && s == ItemsText(items) + (EndText(at, after) + r.rest)
    && r.value == Tail(ItemsValue(items), AtValue(at))
  }

  lemma {:induction false} ArgsFront(x: Gapped, items: seq<Gapped>, at: Option<At>, after: string, s: string, t: string,
                                     r: Read<Tail>)
    requires ItemOk(x) && ArgsSpelled(items, at, after, t, r) && s == ItemText(x) + t
    ensures ArgsSpelled([x] + items, at, after, s,
                        Read(Tail([ItemValue(x)] + r.value.arguments, r.value.pidTo), r.rest))
  {
    hide ItemOk, ItemText, EndText, ItemValue, EndOrBar, Blanks, AtOk;
    assert ([x] + items)[1..] == items;
    var end := EndText(at, after) + r.rest;
    assert ItemText(x) + (ItemsText(items) + end) == ItemText(x) + ItemsText(items) + end;
  }

  lemma {:induction false} ArgsEnd(at: Option<At>, after: string, s: string, rest: string)
    requires (at.Some? ==> AtOk(at.value)) && Blanks(after) && EndOrBar(rest) && s == EndText(at, after) + rest
    ensures ArgsSpelled([], at, after, s, Read(Tail([], AtValue(at)), rest))
  {
    assert "" + s == s;
  }

  lemma {:induction false} PidSpelled(gap: string, s: string) returns (a: At, after: string)
    requires ReadPidTo(s).Some? && Blanks(gap) && gap != []
    ensures var r := ReadPidTo(s).value;
      && AtOk(a) && Blanks(after) && EndOrBar(r.rest)
      && gap + ("@" + s) == EndText(Some(a), after) + r.rest && r.value == Tail([], Some(a.name))
  {
    hide ReadVariable, SkipSpace, Blank;
    var inner := SkipSpelled(s);
    var b := SkipSpace(s);
    NameSpelled(b);
    var v := ReadVariable(b).value;
    after := SkipSpelled(v.rest);
    var rest := SkipSpace(v.rest);
    StopsAre(rest);
    a := At(gap, inner, v.value);
    assert s == inner + ("$" + v.value + (after + rest));
    assert gap + ("@" + s) == EndText(Some(a), after) + rest;
  }

  lemma {:induction false} GapNeeded(s: string, gap: string, b: string)
    requires Stops(s) && s == gap + b && b != [] && b[0] != '|' && !Blank(b[0])
    ensures gap != []
  {
    EmptyGap(s, gap, b);
  }

  lemma {:induction false} EmptyGap(s: string, gap: string, b: string)
    requires s == gap + b
    ensures gap == [] ==> s == b
  {
  }

  lemma {:induction false} NoAt(after: string)
    ensures EndText(None, after) == after
  {
    assert "" + after == after;
  }

  lemma {:induction false} UseText(s: string, gap: string, b: string, x: Gapped, rest: string)
    requires Blanks(gap) && gap != [] && x.gap == gap && x.item.Use? && NameOk(x.item.name)
    requires s == gap + b && b == "$" + x.item.name + rest
    ensures ItemOk(x) && s == ItemText(x) + rest
  {
  }

  lemma {:induction false} WordText(s: string, gap: string, b: string, x: Gapped, rest: string)
    requires Blanks(gap) && gap != [] && x.gap == gap
    requires x.item.Word? && FragmentsOk(x.item.fragments) && x.item.fragments != []
    requires s == gap + b && b == FragmentsText(x.item.fragments) + rest
    ensures ItemOk(x) && s == ItemText(x) + rest
  {
  }

  // Whatever is read as the arguments of a command is spelt in this way.
  lemma {:induction false} ArgumentsSpelled(s: string) returns (items: seq<Gapped>, at: Option<At>, after: string)
    requires ReadArguments(s).Some? && Stops(s)
    ensures ArgsSpelled(items, at, after, s, ReadArguments(s).value)
    decreases |s|
  {
    hide ArgsSpelled, SkipSpace, ReadLiteral, ReadVariable, ReadPidTo, Stops, Blank, Blanks, FragmentsOk, NameOk;
    hide FragmentsText, ItemText, ItemOk, EndText, Spells, FragmentsValue;
    var gap := SkipSpelled(s);
    var b := SkipSpace(s);
    BlanksExample();
    if Starts(b, '$') {
      GapNeeded(s, gap, b);
      NameSpelled(b);
      var v := ReadVariable(b).value;
      items, at, after := ArgumentsSpelled(v.rest);
      var x := Gapped(gap, Use(v.value));
      UseText(s, gap, b, x, v.rest);
      ArgsFront(x, items, at, after, s, v.rest, ReadArguments(v.rest).value);
      items := [x] + items;
    } else if Starts(b, '@') {
      GapNeeded(s, gap, b);
      assert b == "@" + b[1..];
      var a;
      a, after := PidSpelled(gap, b[1..]);
      items, at := [], Some(a);
      ArgsEnd(at, after, s, ReadPidTo(b[1..]).value.rest);
    } else {
      var fs := LiteralSpelled(b);
      var v := ReadLiteral(b).value;
      LiteralFacts(fs, b, v);
      if |v.rest| == |b| {
        items, at, after := [], None, gap;
        NoAt(gap);
        ArgsEnd(at, after, s, b);
      } else {
        GapBeforeWord(s, gap, b, fs, v.rest);
        items, at, after := ArgumentsSpelled(v.rest);
        var x := Gapped(gap, Word(fs));
        WordText(s, gap, b, x, v.rest);
        ArgsFront(x, items, at, after, s, v.rest, ReadArguments(v.rest).value);
        items := [x] + items;
      }
    }
  }

  lemma {:induction false} LiteralFacts(fs: seq<Fragment>, b: string, v: Read<string>)
    requires Spells(fs, b, v) && (b == [] || !Blank(b[0]))
    ensures FragmentsOk(fs) && b == FragmentsText(fs) + v.rest && v.value == FragmentsValue(fs) && Stops(v.rest)
    ensures fs == [] ==> v.rest == b && EndOrBar(b)
  {
    if fs == [] { assert "" + v.rest == v.rest; }
  }

  lemma {:induction false} GapBeforeWord(s: string, gap: string, b: string, fs: seq<Fragment>, rest: string)
    requires Stops(s) && s == gap + b && FragmentsOk(fs) && fs != [] && b == FragmentsText(fs) + rest
    ensures gap != []
  {
    FragmentsStart(fs);
    CharactersAre(b[0]);
    assert b[0] == FragmentsText(fs)[0];
    GapNeeded(s, gap, b);
  }

  ghost predicate CommandSpells(c: WrittenCommand, s: string, r: Read<Command<string>>) {
    CommandOk(c) && s == CommandText(c) + r.rest && r.value == CommandValue(c) && EndOrBar(r.rest)
  }

  lemma {:induction false} CommandSpelled(s: string) returns (c: WrittenCommand)
    requires ReadCommand(s).Some?
    ensures CommandSpells(c, s, ReadCommand(s).value)
  {
    hide ReadLiteral, ReadArguments, FragmentsText, ItemsText, EndText, FragmentsOk, ItemsOk, AtOk, EndOrBar, Stops;
    var fs := LiteralSpelled(s);
    var program := ReadLiteral(s).value;
    var items, at, after := ArgumentsSpelled(program.rest);
    c := WrittenCommand(fs, items, at, after);
    var r := ReadArguments(program.rest).value;
    assert s == FragmentsText(fs) + (ItemsText(items) + (EndText(at, after) + r.rest));
    assert s == CommandText(c) + r.rest;
  }

  // -------------------------------------------------------- groups and combiners

  function Bar(mode: Mode): string { if mode == And then "|" else "||" }

  // Commands with a combiner between each two, and blanks behind it.
  function CommandsText(mode: Mode, cs: seq<WrittenCommand>, gaps: seq<string>): string
    requires cs != [] && |gaps| == |cs| - 1
  {
    if |cs| == 1 then CommandText(cs[0])
    else CommandText(cs[0]) + (Bar(mode) + (gaps[0] + CommandsText(mode, cs[1..], gaps[1..])))
  }

  function CommandsValue(cs: seq<WrittenCommand>): (r: seq<Command<string>>)
    ensures |r| == |cs| && forall i :: 0 <= i < |r| ==> r[i] == CommandValue(cs[i])
  {
    if cs == [] then [] else [CommandValue(cs[0])] + CommandsValue(cs[1..])
  }

  ghost predicate CommandsOk(cs: seq<WrittenCommand>, gaps: seq<string>) {
    && cs != [] && |gaps| == |cs| - 1 && (forall i :: 0 <= i < |cs| ==> CommandOk(cs[i]))
    && forall i :: 0 <= i < |gaps| ==> Blanks(gaps[i])
  }

  // One combiner throughout; a single command has none.
  predicate OneMode(mode: Mode, n: nat, now: Mode) {
    if n == 1 then mode == now else mode != Single && (now == Single || now == mode)
  }

  lemma {:induction false} CommandStarts(c: WrittenCommand)
    requires CommandOk(c)
    ensures CommandText(c) != [] && CommandText(c)[0] != '|' && !Blank(CommandText(c)[0]) && CommandText(c)[0] != '$'
    ensures CommandText(c)[0] != '@' && CommandText(c)[0] != '#'
  {
    FragmentsStart(c.program);
    CharactersAre(FragmentsText(c.program)[0]);
    assert CommandText(c)[0] == FragmentsText(c.program)[0];
  }

  lemma {:induction false} CommandsStart(mode: Mode, cs: seq<WrittenCommand>, gaps: seq<string>)
    requires CommandsOk(cs, gaps)
    ensures var s := CommandsText(mode, cs, gaps);
      s != [] && s[0] != '|' && !Blank(s[0]) && s[0] != '$' && s[0] != '@' && s[0] != '#'
  {
    CommandStarts(cs[0]);
  }

  lemma {:induction false} BarRead(mode: Mode, more: string)
    requires more != [] ==> more[0] != '|'
    ensures var b := Bar(mode) + more;
      && SkipSpace(b) == b && b[0] == '|' && (mode != And <==> |b| > 1 && b[1] == '|')
      && b[if mode == And then 1 else 2..] == more
  {
  }

  lemma {:induction false} CommandsRead(mode: Mode, cs: seq<WrittenCommand>, gaps: seq<string>, now: Mode)
    requires CommandsOk(cs, gaps) && OneMode(mode, |cs|, now)
    ensures ReadCommands(CommandsText(mode, cs, gaps), now) == Some(Commands(mode, CommandsValue(cs)))
    decreases |cs|
  {
    hide ReadCommand, SkipSpace, CommandText, CommandValue, CommandOk, Blanks, Bar;
    if |cs| == 1 {
      CommandRead(cs[0], "");
      assert CommandText(cs[0]) + "" == CommandText(cs[0]);
      SkipNothing();
      assert [CommandValue(cs[0])] == CommandsValue(cs);
    } else {
      var s := CommandsText(mode, cs[1..], gaps[1..]);
      var more := gaps[0] + s;
      CommandsStart(mode, cs[1..], gaps[1..]);
      NotBar(gaps[0], s);
      BarRead(mode, more);
      CommandRead(cs[0], Bar(mode) + more);
      SkipBlanks(gaps[0], s);
      CommandsRead(mode, cs[1..], gaps[1..], mode);
    }
  }

  lemma {:induction false} NotBar(gap: string, s: string)
    requires Blanks(gap) && (s == [] || s[0] != '|')
    ensures gap + s != [] ==> (gap + s)[0] != '|'
  {
  }

  lemma {:induction false} CommandsSpelled(s: string, now: Mode) returns (cs: seq<WrittenCommand>, gaps: seq<string>)
    requires ReadCommands(s, now).Some?
    ensures var c := ReadCommands(s, now).value;
      && CommandsOk(cs, gaps) && OneMode(c.mode, |cs|, now)
      && s == CommandsText(c.mode, cs, gaps) && c.commands == CommandsValue(cs)
    decreases |s|
  {
    hide ReadCommand, SkipSpace, CommandText, CommandValue, CommandOk, Blanks;
    var c := CommandSpelled(s);
    var read := ReadCommand(s).value;
    NoBlankFirst(read.rest);
    var b := read.rest;
    if b == [] {
      cs, gaps := [c], [];
      assert s == CommandText(c) + "" == CommandText(c);
    } else {
      var or := |b| > 1 && b[1] == '|';
      var mode := if or then Or else And;
      var tail := b[if or then 2 else 1..];
      var gap := SkipSpelled(tail);
      var rest := SkipSpace(tail);
      var more, others := CommandsSpelled(rest, mode);
      cs, gaps := [c] + more, [gap] + others;
      assert cs[1..] == more && gaps[1..] == others;
      assert b == Bar(mode) + tail;
    }
  }

  lemma {:induction false} NoBlankFirst(s: string)
    requires EndOrBar(s)
    ensures SkipSpace(s) == s
  {
  }

  ghost predicate Digits(s: string) { forall i :: 0 <= i < |s| ==> '0' <= s[i] <= '9' }

  // The number of repetitions: its decimal value, leading zeros included.
  function NumberOf(digits: string): nat
    requires Digits(digits)
  {
    if digits == [] then 0
    else NumberOf(digits[..|digits| - 1]) * 10 + (digits[|digits| - 1] as int - '0' as int)
  }

  lemma {:induction false} NextDigit(done: string, c: char)
    requires Digits(done) && '0' <= c <= '9'
    ensures Digits(done + [c]) && NumberOf(done + [c]) == NumberOf(done) * 10 + (c as int - '0' as int)
  {
    assert (done + [c])[..|done|] == done;
  }

  lemma {:induction false} DigitsRead(done: string, digits: string, s: string)
    requires Digits(done) && Digits(digits) && (s == [] || !IsDigit(s[0]))
    ensures Digits(done + digits)
    ensures ReadNumber(digits + s, NumberOf(done)) == Read(NumberOf(done + digits), s)
    decreases |digits|
  {
    hide NumberOf;
    if digits == [] {
      assert digits + s == s && done + digits == done;
    } else {
      NextDigit(done, digits[0]);
      assert (digits + s)[1..] == digits[1..] + s && done + [digits[0]] + digits[1..] == done + digits;
      DigitsRead(done + [digits[0]], digits[1..], s);
    }
  }

  lemma {:induction false} DigitsSpelled(s: string, done: string) returns (digits: string)
    requires Digits(done)
    ensures Digits(digits) && Digits(done + digits) && s == digits + ReadNumber(s, NumberOf(done)).rest
    ensures ReadNumber(s, NumberOf(done)).value == NumberOf(done + digits)
    ensures s != [] && IsDigit(s[0]) ==> digits != []
    decreases |s|
  {
    hide NumberOf, Digits, ReadNumber;
    NumberStep(s, NumberOf(done));
    if s != [] && IsDigit(s[0]) {
      NextDigit(done, s[0]);
      var more := DigitsSpelled(s[1..], done + [s[0]]);
      digits := [s[0]] + more;
      DigitFront(s[0], more);
      SpellDigit(s, done, more, ReadNumber(s, NumberOf(done)).rest);
    } else {
      digits := "";
      assert Digits("") by { NoDigits(); }
      assert done + digits == done && s == "" + s;
    }
  }

  lemma {:induction false} NumberStep(s: string, acc: nat)
    ensures ReadNumber(s, acc) ==
            if s != [] && IsDigit(s[0]) then ReadNumber(s[1..], acc * 10 + (s[0] as int - '0' as int)) else Read(acc, s)
  {
  }

  lemma {:induction false} DigitFront(c: char, more: string)
    requires '0' <= c <= '9' && Digits(more)
    ensures Digits([c] + more)
  {
  }

  lemma {:induction false} SpellDigit(s: string, done: string, more: string, rest: string)
    requires s != [] && s[1..] == more + rest
    ensures s == [s[0]] + more + rest && done + [s[0]] + more == done + ([s[0]] + more)
  {
  }

  // repeat, a space, more blanks, the digits, and blanks behind them.
  datatype Repeat = Repeat(inner: string, digits: string, gap: string)

  // A variable and, behind blanks, an equals sign.
  datatype Result = Result(name: string, gap: string, inner: string)

  datatype WrittenGroup = WrittenGroup(lead: string, repeated: Option<Repeat>, result: Option<Result>, mode: Mode,
                                       commands: seq<WrittenCommand>, gaps: seq<string>)

  ghost predicate RepeatOk(x: Repeat) {
    Blanks(x.inner) && Digits(x.digits) && x.digits != [] && Blanks(x.gap) && x.gap != []
  }

  ghost predicate ResultOk(x: Result) { NameOk(x.name) && Blanks(x.gap) && x.gap != [] && Blanks(x.inner) }

  function RepeatText(x: Option<Repeat>): string {
    if x.None? then "" else "repeat " + x.value.inner + x.value.digits + x.value.gap
  }

  function ResultText(x: Option<Result>): string {
    if x.None? then "" else "$" + x.value.name + x.value.gap + "=" + x.value.inner
  }

  function BodyText(g: WrittenGroup): string
    requires g.commands != [] && |g.gaps| == |g.commands| - 1
  {
    ResultText(g.result) + CommandsText(g.mode, g.commands, g.gaps)
  }

  // Without repetitions the line must not look as if it had some.
  ghost predicate GroupOk(g: WrittenGroup) {
    && Blanks(g.lead) && CommandsOk(g.commands, g.gaps) && OneMode(g.mode, |g.commands|, Single)
    && (g.result.Some? ==> ResultOk(g.result.value))
    && if g.repeated.Some? then RepeatOk(g.repeated.value) else !("repeat " <= BodyText(g)) && BodyText(g) != "repeat"
  }

  function GroupText(g: WrittenGroup): string
    requires g.commands != [] && |g.gaps| == |g.commands| - 1
  {
    g.lead + (RepeatText(g.repeated) + BodyText(g))
  }

  ghost function GroupValue(g: WrittenGroup): Group<string>
    requires GroupOk(g)
  {
    Group(g.mode, if g.repeated.None? then 1 else NumberOf(g.repeated.value.digits),
          if g.result.None? then None else Some(g.result.value.name), CommandsValue(g.commands))
  }

  lemma {:induction false} ResultRead(x: Option<Result>, s: string)
    requires (x.Some? ==> ResultOk(x.value)) && s != [] && !Blank(s[0]) && s[0] != '$'
    ensures ReadResult(ResultText(x) + s) == Some(Read(if x.None? then None else Some(x.value.name), s))
  {
    hide SkipSpace, ReadVariable, Blank;
    if x.None? {
      assert "" + s == s;
    } else {
      var r := x.value;
      var b := "=" + (r.inner + s);
      assert ResultText(x) + s == "$" + r.name + (r.gap + b);
      BlanksExample();
      assert Stops(r.gap + b) by { assert (r.gap + b)[0] == r.gap[0]; }
      NameRead(r.name, r.gap + b);
      SkipBlanks(r.gap, b);
      assert b[1..] == r.inner + s;
      SkipBlanks(r.inner, s);
    }
  }

  lemma {:induction false} ResultSpelled(s: string) returns (x: Option<Result>)
    requires ReadResult(s).Some? && (s == [] || !Blank(s[0]))
    ensures var r := ReadResult(s).value;
      && (x.Some? ==> ResultOk(x.value)) && s == ResultText(x) + r.rest
      && r.value == (if x.None? then None else Some(x.value.name)) && (r.rest == [] || !Blank(r.rest[0]))
  {
    hide SkipSpace, ReadVariable, Blank;
    if Starts(s, '$') {
      NameSpelled(s);
      var v := ReadVariable(s).value;
      var gap := SkipSpelled(v.rest);
      var b := SkipSpace(v.rest);
      BlanksExample();
      GapNeeded(v.rest, gap, b);
      var inner := SkipSpelled(b[1..]);
      x := Some(Result(v.value, gap, inner));
      assert b == "=" + b[1..];
      assert s == ResultText(x) + SkipSpace(b[1..]);
    } else {
      x := None;
      assert s == "" + s;
    }
  }

  lemma {:induction false} RepeatParts(x: Repeat, s: string)
    ensures var rest := x.digits + (x.gap + s);
      && RepeatText(Some(x)) + s == REPEAT + (x.inner + rest)
      && (REPEAT + (x.inner + rest))[|REPEAT|..] == x.inner + rest
  {
  }

  lemma {:induction false} RepeatRead(x: Repeat, s: string)
    requires RepeatOk(x) && (s == [] || !Blank(s[0]))
    ensures ReadRepeats(RepeatText(Some(x)) + s) == Some(Read(NumberOf(x.digits), s))
  {
    hide SkipSpace, ReadNumber, Blank, NumberOf, RepeatText, IsDigit, IsSpace;
    var rest := x.gap + s;
    var b := x.digits + rest;
    RepeatParts(x, s);
    assert rest[0] == x.gap[0] && b[0] == x.digits[0];
    DigitNotBlank(b[0]);
    SkipBlanks(x.inner, b);
    BlankNotDigit(rest[0]);
    NoDigits();
    DigitsRead("", x.digits, rest);
    assert "" + x.digits == x.digits;
    SkipBlanks(x.gap, s);
  }

  lemma NoDigits()
    ensures Digits("") && NumberOf("") == 0
  {
  }

  lemma DigitNotBlank(c: char)
    requires '0' <= c <= '9'
    ensures !Blank(c) && IsDigit(c)
  {
  }

  lemma BlankNotDigit(c: char)
    requires Blank(c)
    ensures !IsDigit(c) && IsSpace(c)
  {
  }

  lemma {:induction false} RepeatSpelled(s: string) returns (x: Option<Repeat>)
    requires ReadRepeats(s).Some? && (s == [] || !Blank(s[0]))
    ensures var r := ReadRepeats(s).value;
      && s == RepeatText(x) + r.rest && (r.rest == [] || !Blank(r.rest[0]))
      && if x.Some? then RepeatOk(x.value) && r.value == NumberOf(x.value.digits)
         else r.value == 1 && !("repeat " <= s) && s != "repeat"
  {
    hide SkipSpace, ReadNumber, Blank, NumberOf, RepeatText, IsSpace;
    if REPEAT <= s {
      var t := s[|REPEAT|..];
      assert s == REPEAT + t;
      x := CountSpelled(t, s);
    } else {
      x := None;
      NoRepeatText(s);
    }
  }

  lemma {:induction false} CountSpelled(t: string, s: string) returns (x: Option<Repeat>)
    requires s == REPEAT + t && ReadRepeats(s).Some?
    ensures var r := ReadRepeats(s).value;
      && x.Some? && RepeatOk(x.value) && r.value == NumberOf(x.value.digits)
      && s == RepeatText(x) + r.rest && (r.rest == [] || !Blank(r.rest[0]))
  {
    hide SkipSpace, ReadNumber, Blank, NumberOf, RepeatText, IsSpace;
    assert s[|REPEAT|..] == t && REPEAT <= s;
    var inner := SkipSpelled(t);
    var b := SkipSpace(t);
    NoDigits();
    var digits := DigitsSpelled(b, "");
    assert "" + digits == digits;
    var rest := ReadNumber(b, 0).rest;
    var gap := SkipSpelled(rest);
    x := Some(Repeat(inner, digits, gap));
    BlankFirst(rest, gap);
    RepeatParts(x.value, SkipSpace(rest));
  }

  lemma {:induction false} BlankFirst(s: string, gap: string)
    requires s != [] && IsSpace(s[0]) && s == gap + SkipSpace(s) && (SkipSpace(s) == [] || !Blank(SkipSpace(s)[0]))
    ensures gap != []
  {
    CharactersAre(s[0]);
    assert gap == [] ==> s == SkipSpace(s);
  }

  // A written group is read as what it says.
  lemma {:induction false} GroupRead(g: WrittenGroup)
    requires GroupOk(g)
    ensures ReadGroup(GroupText(g)) == Some(GroupValue(g))
  {
    hide SkipSpace, ReadRepeats, ReadResult, ReadCommands, Blank, CommandsText, RepeatText, ResultText;
    hide NumberOf, CommandsOk;
    CommandsShape(g.commands, g.gaps);
    var s, body := CommandsText(g.mode, g.commands, g.gaps), BodyText(g);
    CommandsStart(g.mode, g.commands, g.gaps);
    BodyStarts(g.result, s);
    HeadStarts(g.repeated, body);
    SkipBlanks(g.lead, RepeatText(g.repeated) + body);
    if g.repeated.Some? {
      RepeatRead(g.repeated.value, body);
    } else {
      NoRepeat(body);
    }
    ResultRead(g.result, s);
    CommandsRead(g.mode, g.commands, g.gaps, Single);
  }

  lemma {:induction false} NoRepeat(body: string)
    requires !("repeat " <= body) && body != "repeat"
    ensures ReadRepeats(RepeatText(None) + body) == Some(Read(1, body))
  {
    assert "" + body == body;
  }

  lemma {:induction false} BodyStarts(x: Option<Result>, s: string)
    requires s != [] && !Blank(s[0])
    ensures ResultText(x) + s != [] && !Blank((ResultText(x) + s)[0])
  {
    if x.None? { assert "" + s == s; }
  }

  lemma {:induction false} HeadStarts(x: Option<Repeat>, s: string)
    requires s != [] && !Blank(s[0])
    ensures RepeatText(x) + s != [] && !Blank((RepeatText(x) + s)[0])
  {
    if x.None? { assert "" + s == s; }
  }

  // Whatever is read as a group is written in this way.
  lemma {:induction false} GroupSpelled(s: string) returns (g: WrittenGroup)
    requires ReadGroup(s).Some?
    ensures GroupOk(g) && s == GroupText(g) && ReadGroup(s).value == GroupValue(g)
  {
    hide SkipSpace, ReadRepeats, ReadResult, ReadCommands, Blank, CommandsText, RepeatText, ResultText;
    hide NumberOf, CommandsOk;
    var lead := SkipSpelled(s);
    var t := SkipSpace(s);
    var repeated := RepeatSpelled(t);
    var body := ReadRepeats(t).value.rest;
    var result := ResultSpelled(body);
    var rest := ReadResult(body).value.rest;
    var cs, gaps := CommandsSpelled(rest, Single);
    var c := ReadCommands(rest, Single).value;
    CommandsShape(cs, gaps);
    g := WrittenGroup(lead, repeated, result, c.mode, cs, gaps);
    assert body == BodyText(g);
    if repeated.None? { NoRepeatText(body); }
  }

  lemma {:induction false} NoRepeatText(body: string)
    ensures RepeatText(None) + body == body
  {
    assert "" + body == body;
  }

  lemma {:induction false} CommandsShape(cs: seq<WrittenCommand>, gaps: seq<string>)
    requires CommandsOk(cs, gaps)
    ensures cs != [] && |gaps| == |cs| - 1
  {
  }
}
