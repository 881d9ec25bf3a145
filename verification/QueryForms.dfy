/** What the string functions of Serverlab/more_string.c do to every text, spelt out byte by byte. */
module QueryForms {
  import opened Options
  import opened Dictionaries
  import opened Query

  // ------------------------------------------------------------- percent-encoding

  // The ways to write a byte: an escape with two digits of either case, a plus sign, or the byte itself.
  datatype Unit = Escaped(b: Byte, highUpper: bool, lowUpper: bool) | Plus | Raw(c: Byte)

  function Digit(v: nat, upper: bool): Byte
    requires v < 16
  {
    (if upper then "0123456789ABCDEF"[v] else "0123456789abcdef"[v]) as int
  }

  function UnitText(u: Unit): Text {
    match u
    case Escaped(b, highUpper, lowUpper) => [37, Digit(b / 16, highUpper), Digit(b % 16, lowUpper)]
    case Plus => [43]
    case Raw(c) => [c]
  }

  function UnitByte(u: Unit): Byte {
    match u
    case Escaped(b, _, _) => b
    case Plus => 32
    case Raw(c) => c
  }

  function Spelled(units: seq<Unit>): Text {
    if units == [] then [] else UnitText(units[0]) + Spelled(units[1..])
  }

  function Meant(units: seq<Unit>): (r: Text)
    ensures |r| == |units| && forall i :: 0 <= i < |r| ==> r[i] == UnitByte(units[i])
  {
    if units == [] then [] else [UnitByte(units[0])] + Meant(units[1..])
  }

  predicate Digits(text: Text) {
    && |text| >= 2
    && text[0] as char in "0123456789ABCDEFabcdef" && text[1] as char in "0123456789ABCDEFabcdef"
  }

  // A plus sign never stands for itself, and a percent sign does only where no two digits follow.
  predicate Unambiguous(units: seq<Unit>) {
    units == [] ||
    ((units[0].Raw? ==> units[0].c != 43 && (units[0].c == 37 ==> !Digits(Spelled(units[1..]))))
     && Unambiguous(units[1..]))
  }

  lemma HexDigitsAre(v: Byte)
    ensures IsHexDigit(v) <==> v as char in "0123456789ABCDEFabcdef"
  {
  }

  lemma DigitIs(v: nat, upper: bool)
    requires v < 16
    ensures IsHexDigit(Digit(v, upper)) && HexValue(Digit(v, upper)) == v
  {
  }

  lemma EscapesAre(text: Text)
    ensures Escape(text) <==> text != [] && text[0] == 37 && Digits(text[1..])
  {
    if |text| >= 3 {
      HexDigitsAre(text[1]);
      HexDigitsAre(text[2]);
    }
  }

  lemma {:induction false} DecodeUnit(u: Unit, rest: Text)
    requires u.Raw? ==> u.c != 43 && (u.c == 37 ==> !Digits(rest))
    ensures Decode(UnitText(u) + rest) == [UnitByte(u)] + Decode(rest)
  {
    hide IsHexDigit, HexValue, Digit, Digits;
    var text := UnitText(u) + rest;
    match u
    case Escaped(b, highUpper, lowUpper) =>
      DigitIs(b / 16, highUpper);
      DigitIs(b % 16, lowUpper);
      assert text[3..] == rest;
    case Plus =>
      assert text[1..] == rest;
    case Raw(c) =>
      assert text[1..] == rest;
      EscapesAre(text);
  }

  // query_decode gives each unit its byte: escapes in any case, plus signs, other bytes as they are.
  lemma {:induction false} DecodeSpelled(units: seq<Unit>)
    requires Unambiguous(units)
    ensures Decode(Spelled(units)) == Meant(units)
  {
    hide Digits, UnitText, UnitByte;
    if units != [] {
      DecodeSpelled(units[1..]);
      DecodeUnit(units[0], Spelled(units[1..]));
    }
  }

  // Every text is spelt in one such way, so the result of query_decode is known for every text.
  lemma {:induction false} EveryTextIsSpelled(text: Text) returns (units: seq<Unit>)
    ensures Unambiguous(units) && Spelled(units) == text
  {
    hide Digits;
    if text == [] {
      units := [];
    } else if text[0] == 37 && Digits(text[1..]) {
      var more := EveryTextIsSpelled(text[3..]) by { DigitsAreThere(text[1..]); }
      var u := DigitsSpell(text[1..]);
      units := [u] + more;
      assert units[1..] == more && text == UnitText(u) + text[3..];
    } else {
      var more := EveryTextIsSpelled(text[1..]);
      units := [if text[0] == 43 then Plus else Raw(text[0])] + more;
      assert units[1..] == more && text == [text[0]] + text[1..];
    }
  }

  lemma DigitsAreThere(text: Text)
    requires Digits(text)
    ensures |text| >= 2
  {
  }

  lemma DigitsSpell(text: Text) returns (u: Unit)
    requires Digits(text)
    ensures u.Escaped? && UnitText(u) == [37, text[0], text[1]]
  {
    var high, highUpper := DigitAt(text[0]);
    var low, lowUpper := DigitAt(text[1]);
    u := Escaped(high * 16 + low, highUpper, lowUpper);
    assert u.b / 16 == high && u.b % 16 == low;
  }

  lemma DigitAt(c: Byte) returns (v: nat, upper: bool)
    requires c as char in "0123456789ABCDEFabcdef"
    ensures v < 16 && Digit(v, upper) == c
  {
    v, upper := if c <= 57 then c - 48 else if c <= 70 then c - 55 else c - 87, c <= 70;
  }

  // query_encode leaves letters and digits alone, and writes every other byte with two lower-case digits.
  function Encoded(c: Byte): Unit {
    var x := c as char;
    if 'a' <= x <= 'z' || 'A' <= x <= 'Z' || '0' <= x <= '9' then Raw(c) else Escaped(c, false, false)
  }

  lemma EncodeByteIs(c: Byte)
    ensures EncodeByte(c) == UnitText(Encoded(c))
  {
    hide Digit;
    LowerDigit(c / 16);
    LowerDigit(c % 16);
  }

  lemma LowerDigit(v: nat)
    requires v < 16
    ensures HexDigit(v) == Digit(v, false)
  {
  }

  lemma {:induction false} EncodeSpells(text: Text, units: seq<Unit>)
    requires |units| == |text| && forall i :: 0 <= i < |text| ==> units[i] == Encoded(text[i])
    ensures Encode(text) == Spelled(units)
  {
    hide EncodeByte, Encoded, UnitText;
    if text != [] {
      EncodeByteIs(text[0]);
      EncodeSpells(text[1..], units[1..]);
    }
  }

  // ---------------------------------------------------------------- whole queries

  // One part of a query: a name, an equals sign and a value that may hold more of them, or a name alone.
  datatype Part = Named(name: Text, value: Text) | Bare(name: Text)

  ghost predicate RawName(name: Text) {
    forall i :: 0 <= i < |name| ==> name[i] != 0 && name[i] != 35 && name[i] != 61 && name[i] != 38 && name[i] != 59
  }

  ghost predicate RawValue(value: Text) {
    forall i :: 0 <= i < |value| ==> value[i] != 0 && value[i] != 35 && value[i] != 38 && value[i] != 59
  }

  ghost predicate PartOk(p: Part) { RawName(p.name) && (p.Named? ==> RawValue(p.value)) }

  function PartText(p: Part): Text { if p.Named? then p.name + [61] + p.value else p.name }

  function PartPiece(p: Part): Piece { Piece(p.name, if p.Named? then p.value else []) }

  // Parts, each followed by one of the two separators.
  function Joined(parts: seq<Part>, separators: seq<Byte>): Text
    requires |parts| == |separators|
  {
    if parts == [] then []
    else PartText(parts[0]) + [separators[0]] + Joined(parts[1..], separators[1..])
  }

  function PartPieces(parts: seq<Part>): (r: seq<Piece>)
    ensures |r| == |parts| && forall i :: 0 <= i < |r| ==> r[i] == PartPiece(parts[i])
  {
    if parts == [] then [] else [PartPiece(parts[0])] + PartPieces(parts[1..])
  }

  ghost predicate PartsOk(parts: seq<Part>, separators: seq<Byte>) {
    && |parts| == |separators|
    && forall i :: 0 <= i < |parts| ==> PartOk(parts[i]) && (separators[i] == 38 || separators[i] == 59)
  }

  // A fragment is not part of the query.
  predicate Tail(fragment: Text) { fragment == [] || fragment[0] == 35 }

  lemma {:induction false} FirstBare(name: Text, later: Text)
    requires RawName(name) && (later == [] || later[0] == 35 || later[0] == 38 || later[0] == 59)
    requires name != [] || (later != [] && later[0] != 35)
    ensures Pieces(name + later) == [Piece(name, [])] + Pieces(AfterPiece(later))
  {
    hide AfterPiece;
    var text := name + later;
    assert forall i :: 0 <= i < |name| ==> text[i] == name[i];
    NameLengthIs(text, |name|);
    assert text[|name|..] == later && text[..|name|] == name;
    assert AfterEquals(later) == later;
    DataLengthIs(later, 0);
    assert later[..0] == [] && later[0..] == later;
    assert text[0] == if name == [] then later[0] else name[0];
    hide NameLength, DataLength, AfterEquals;
  }

  // The first part of a query is its first piece, and parsing goes on behind the separator.
  lemma {:induction false} FirstPart(p: Part, later: Text)
    requires PartOk(p) && (later == [] || later[0] == 35 || later[0] == 38 || later[0] == 59)
    requires PartText(p) != [] || (later != [] && later[0] != 35)
    ensures Pieces(PartText(p) + later) ==
            [PartPiece(p)] + Pieces(if later == [] || later[0] == 35 then later else later[1..])
  {
    hide Pieces;
    if p.Named? {
      assert p.name + [61] + p.value + later == p.name + [EQUALS] + (p.value + later);
      FirstPiece(p.name, p.value, later);
    } else {
      FirstBare(p.name, later);
    }
  }

  // The pieces of a query are its parts; only an empty last part is none.
  lemma {:induction false} PiecesAreParts(parts: seq<Part>, separators: seq<Byte>, last: Part, fragment: Text)
    requires PartsOk(parts, separators) && PartOk(last) && Tail(fragment)
    ensures Pieces(Joined(parts, separators) + PartText(last) + fragment) ==
            PartPieces(parts) + if PartText(last) == [] then [] else [PartPiece(last)]
    decreases |parts|
  {
    hide Pieces, PartText, PartPiece, PartOk;
    var end := PartText(last) + fragment;
    if parts == [] {
      assert Joined(parts, separators) + PartText(last) + fragment == end;
      NoPieces(fragment);
      if PartText(last) == [] {
        assert end == fragment;
      } else {
        FirstPart(last, fragment);
      }
    } else {
      var rest := Joined(parts[1..], separators[1..]) + PartText(last) + fragment;
      var later := [separators[0]] + rest;
      assert Joined(parts, separators) + PartText(last) + fragment == PartText(parts[0]) + later;
      FirstPart(parts[0], later);
      assert later[1..] == rest;
      PiecesAreParts(parts[1..], separators[1..], last, fragment);
      var more := if PartText(last) == [] then [] else [PartPiece(last)];
      assert [PartPiece(parts[0])] + (PartPieces(parts[1..]) + more) == PartPieces(parts) + more;
    }
  }

  // Every text is such a query, so its pieces are known for every text.
  lemma {:induction false} EveryTextIsQuery(text: Text)
      returns (parts: seq<Part>, separators: seq<Byte>, last: Part, fragment: Text)
    requires NulFree(text)
    ensures PartsOk(parts, separators) && PartOk(last) && Tail(fragment)
    ensures Joined(parts, separators) + PartText(last) + fragment == text
    decreases |text|
  {
    hide PartText, Joined, PartOk;
    var p, later := TakePart(text);
    if later == [] || later[0] == 35 {
      parts, separators, last, fragment := [], [], p, later;
      NothingJoined();
      assert [] + PartText(p) + later == text;
    } else {
      var more, marks;
      more, marks, last, fragment := EveryTextIsQuery(later[1..]);
      parts, separators := [p] + more, [later[0]] + marks;
      assert later == [later[0]] + later[1..];
      JoinedFront(p, later[0], more, marks, last, fragment);
    }
  }

  lemma {:induction false} JoinedFront(p: Part, separator: Byte, parts: seq<Part>, separators: seq<Byte>, last: Part,
                                       fragment: Text)
    requires |parts| == |separators|
    ensures Joined([p] + parts, [separator] + separators) + PartText(last) + fragment ==
            PartText(p) + ([separator] + (Joined(parts, separators) + PartText(last) + fragment))
  {
    hide PartText;
    assert ([p] + parts)[1..] == parts && ([separator] + separators)[1..] == separators;
  }

  lemma NothingJoined()
    ensures Joined([], []) == []
  {
  }

  lemma {:induction false} TakePart(text: Text) returns (p: Part, later: Text)
    requires NulFree(text)
    ensures PartOk(p) && text == PartText(p) + later && NulFree(later)
    ensures later == [] || later[0] == 35 || later[0] == 38 || later[0] == 59
  {
    var n := TakeName(text);
    var name, rest := text[..n], text[n..];
    assert text == name + rest;
    if rest != [] && rest[0] == 61 {
      var k := TakeValue(rest[1..]);
      p, later := Named(name, rest[1..][..k]), rest[1..][k..];
      assert rest == [61] + rest[1..][..k] + rest[1..][k..];
    } else {
      p, later := Bare(name), rest;
    }
  }

  lemma {:induction false} TakeName(text: Text) returns (n: nat)
    requires NulFree(text)
    ensures n <= |text| && RawName(text[..n])
    ensures n < |text| ==> text[n] == 35 || text[n] == 61 || text[n] == 38 || text[n] == 59
  {
    n := 0;
    while n < |text| && text[n] != 35 && text[n] != 61 && text[n] != 38 && text[n] != 59
      invariant n <= |text| && RawName(text[..n])
    {
      n := n + 1;
    }
  }

  lemma {:induction false} TakeValue(text: Text) returns (n: nat)
    requires NulFree(text)
    ensures n <= |text| && RawValue(text[..n])
    ensures n < |text| ==> text[n] == 35 || text[n] == 38 || text[n] == 59
  {
    n := 0;
    while n < |text| && text[n] != 35 && text[n] != 38 && text[n] != 59
      invariant n <= |text| && RawValue(text[..n])
    {
      n := n + 1;
    }
  }

  // The parts that count: all but an empty last one.
  function Parts(parts: seq<Part>, last: Part): seq<Part> {
    if PartText(last) == [] then parts else parts + [last]
  }

  // parse_query leaves for a key the value of the last part whose name is the key, in any spelling the
  // dictionary takes for the same, and whatever it had when there is none.
  lemma {:induction false} QueryAssigns(m: map<Text, Text>, parts: seq<Part>, separators: seq<Byte>, last: Part,
                                        fragment: Text, folding: bool, key: Text)
    requires PartsOk(parts, separators) && PartOk(last) && Tail(fragment)
    ensures var after := Assigned(m, Pieces(Joined(parts, separators) + PartText(last) + fragment), folding);
      var all := Parts(parts, last);
      && (forall i :: 0 <= i < |all| && SameKey(all[i].name, key, folding)
                      && (forall j :: i < j < |all| ==> !SameKey(all[j].name, key, folding)) ==>
            Found(after, key, folding) == Some(UpToNul(Decode(PartPiece(all[i]).data))))
      && ((forall i :: 0 <= i < |all| ==> !SameKey(all[i].name, key, folding)) ==>
            Found(after, key, folding) == Found(m, key, folding))
  {
    hide Pieces, Assigned, PartText, UpToNul, Decode, Joined, PartOk, Canon;
    PiecesAreParts(parts, separators, last, fragment);
    var all, k := Parts(parts, last), Canon(key, folding);
    var pieces := PartPieces(parts) + if PartText(last) == [] then [] else [PartPiece(last)];
    assert forall i :: 0 <= i < |all| ==> pieces[i] == PartPiece(all[i]) && pieces[i].name == all[i].name;
    forall i | 0 <= i < |all| && SameKey(all[i].name, key, folding)
               && forall j :: i < j < |all| ==> !SameKey(all[j].name, key, folding)
      ensures Found(Assigned(m, pieces, folding), key, folding) == Some(UpToNul(Decode(PartPiece(all[i]).data)))
    {
      assert LastPiece(pieces, folding, k, i);
      LastValueWins(m, pieces, folding, k, i);
    }
    if forall i :: 0 <= i < |all| ==> !SameKey(all[i].name, key, folding) {
      assert NoPiece(pieces, folding, k);
      OthersUnchanged(m, pieces, folding, k);
    }
  }

  // The query a=b=c has one part, whose value is b=c.
  lemma EqualsInValue()
    ensures Pieces([97, 61, 98, 61, 99]) == [Piece([97], [98, 61, 99])]
  {
    hide Pieces;
    var p := Named([97], [98, 61, 99]);
    PiecesAreParts([], [], p, []);
    assert [] + PartText(p) + [] == [97, 61, 98, 61, 99];
  }
}
