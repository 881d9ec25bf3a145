/** Percent-encoding and query parsing of Serverlab/more_string.c (section 2.1 of RFC 3986). */
module Query {
  import opened Dictionaries

  const SPACE: Byte := 32
  const HASH: Byte := 35
  const PERCENT: Byte := 37
  const AMPERSAND: Byte := 38
  const PLUS: Byte := 43
  const SEMICOLON: Byte := 59
  const EQUALS: Byte := 61

  // A C string in memory: its text, then a NUL, then whatever follows.
  ghost predicate IsString(memory: seq<Byte>, text: Text) {
    && |text| < |memory| && memory[..|text|] == text && memory[|text|] == 0
    && NulFree(text)
  }

  ghost predicate NulFree(text: Text) {
    forall i :: 0 <= i < |text| ==> text[i] != 0
  }

  // The C string that begins a stretch of memory: its bytes up to the first NUL.
  function UpToNul(memory: seq<Byte>): Text {
    if memory == [] || memory[0] == 0 then [] else [memory[0]] + UpToNul(memory[1..])
  }

  lemma {:induction false} UpToNulIs(text: Text, behind: seq<Byte>)
    ensures UpToNul(text + [0] + behind) == UpToNul(text)
    ensures UpToNul(text) <= text && NulFree(UpToNul(text))
    ensures |UpToNul(text)| < |text| ==> text[|UpToNul(text)|] == 0
    ensures UpToNul(text) == text <==> NulFree(text)
  {
    if text != [] {
      UpToNulIs(text[1..], behind);
      assert (text + [0] + behind)[1..] == text[1..] + [0] + behind;
      assert text == [text[0]] + text[1..];
      assert forall i :: 0 < i < |text| ==> text[i] == text[1..][i - 1];
    }
  }

  // What a caller reads through a pointer to a string is its text.
  lemma {:induction false} StringRead(memory: seq<Byte>, text: Text)
    requires IsString(memory, text)
    ensures UpToNul(memory) == text
  {
    UpToNulIs(text, memory[|text| + 1..]);
    assert memory == memory[..|text|] + [0] + memory[|text| + 1..];
  }

  predicate IsHexDigit(v: Byte) {
    48 <= v <= 57 || 65 <= v <= 70 || 97 <= v <= 102
  }

  function HexValue(v: Byte): (r: nat)
    requires IsHexDigit(v)
    ensures r < 16
  {
    if 48 <= v <= 57 then v - 48 else if 65 <= v <= 70 then v - 65 + 10 else v - 97 + 10
  }

  function HexDigit(v: nat): (r: Byte)
    requires v < 16
    ensures IsHexDigit(r) && HexValue(r) == v
  {
    if v < 10 then 48 + v else 97 + (v - 10)
  }

  predicate Plain(c: Byte) {
    97 <= c <= 122 || 65 <= c <= 90 || 48 <= c <= 57
  }

  function EncodeByte(c: Byte): Text {
    if Plain(c) then [c] else [PERCENT, HexDigit(c / 16), HexDigit(c % 16)]
  }

  function Encode(text: Text): Text {
    if text == [] then [] else EncodeByte(text[0]) + Encode(text[1..])
  }

  predicate Escape(text: Text) {
    |text| >= 3 && text[0] == PERCENT && IsHexDigit(text[1]) && IsHexDigit(text[2])
  }

  function Decode(text: Text): Text {
    if text == [] then []
    else if Escape(text) then [HexValue(text[1]) * 16 + HexValue(text[2])] + Decode(text[3..])
    else [if text[0] == PLUS then SPACE else text[0]] + Decode(text[1..])
  }

  // Decoding undoes encoding, for every string.
  lemma {:induction false} DecodeEncode(text: Text)
    ensures Decode(Encode(text)) == text
  {
    if text != [] {
      var c := text[0];
      var code, rest := EncodeByte(c), Encode(text[1..]);
      DecodeEncode(text[1..]);
      assert (code + rest)[|code|..] == rest;
      if !Plain(c) {
        assert Escape(code + rest);
        assert HexValue(HexDigit(c / 16)) * 16 + HexValue(HexDigit(c % 16)) == c;
      }
    }
  }

  // An encoded string holds only letters, digits and percent signs, so it needs no further escaping.
  lemma {:induction false} EncodeIsClean(text: Text)
    ensures forall i :: 0 <= i < |Encode(text)| ==> Plain(Encode(text)[i]) || Encode(text)[i] == PERCENT
  {
    if text != [] {
      EncodeIsClean(text[1..]);
    }
  }

  // Two different strings are never encoded alike.
  lemma {:induction false} EncodeIsInjective(a: Text, b: Text)
    requires Encode(a) == Encode(b)
    ensures a == b
  {
    DecodeEncode(a);
    DecodeEncode(b);
  }

  // Reading text has come to i; what was read stands for `out`.
  ghost predicate Encoding(text: Text, i: nat, out: Text) {
    i <= |text| && Encode(text) == out + Encode(text[i..])
  }

  ghost predicate Decoding(text: Text, i: nat, out: Text) {
    i <= |text| && Decode(text) == out + Decode(text[i..])
  }

  lemma {:induction false} EncodingStep(text: Text, i: nat, out: Text)
    requires Encoding(text, i, out) && i < |text|
    ensures Encoding(text, i + 1, out + EncodeByte(text[i]))
    ensures |out + EncodeByte(text[i])| <= |Encode(text)|
  {
  }

  // What the look-ahead of query_decode finds, up to the NUL.
  lemma {:induction false} EscapeIs(memory: seq<Byte>, text: Text, i: nat)
    requires IsString(memory, text) && i < |text|
    ensures i + 1 < |memory| && memory[i] == text[i]
    ensures memory[i] == PERCENT && IsHexDigit(memory[i + 1]) ==> i + 2 < |memory|
    ensures Escape(text[i..]) <==> memory[i] == PERCENT && IsHexDigit(memory[i + 1]) && IsHexDigit(memory[i + 2])
    ensures Escape(text[i..]) ==> i + 2 < |text| && memory[i + 1] == text[i + 1] && memory[i + 2] == text[i + 2]
  {
  }

  lemma {:induction false} DecodingStep(text: Text, i: nat, out: Text) returns (next: nat, c: Byte)
    requires Decoding(text, i, out) && i < |text|
    ensures next == if Escape(text[i..]) then i + 3 else i + 1
    ensures c == if Escape(text[i..]) then HexValue(text[i + 1]) * 16 + HexValue(text[i + 2])
                 else if text[i] == PLUS then SPACE else text[i]
    ensures Decoding(text, next, out + [c]) && |out| < |Decode(text)|
  {
    var rest := text[i..];
    if Escape(rest) {
      next, c := i + 3, HexValue(text[i + 1]) * 16 + HexValue(text[i + 2]);
      assert rest[3..] == text[next..];
    } else {
      next, c := i + 1, if text[i] == PLUS then SPACE else text[i];
      assert rest[1..] == text[next..];
    }
    assert out + ([c] + Decode(text[next..])) == out + [c] + Decode(text[next..]);
  }

  lemma {:induction false} WholeText(text: Text, out: Text)
    ensures Encoding(text, 0, []) && Decoding(text, 0, [])
    ensures Encoding(text, |text|, out) ==> out == Encode(text)
    ensures Decoding(text, |text|, out) ==> out == Decode(text)
  {
  }

  // A buffer whose beginning is filled in.
  ghost predicate Begins(memory: seq<Byte>, out: Text) {
    |out| <= |memory| && memory[..|out|] == out
  }

  lemma {:induction false} BeginsNothing(memory: seq<Byte>)
    ensures Begins(memory, [])
  {
  }

  lemma {:induction false} BeginsMore(memory: seq<Byte>, out: Text, c: Byte)
    requires Begins(memory, out) && |out| < |memory|
    ensures Begins(memory[|out| := c], out + [c])
  {
  }

  lemma {:induction false} BeginsThree(memory: seq<Byte>, out: Text, more: Text)
    requires Begins(memory, out) && |out| + 2 < |memory| && |more| == 3
    ensures Begins(memory[|out| := more[0]][|out| + 1 := more[1]][|out| + 2 := more[2]], out + more)
  {
    var m1 := memory[|out| := more[0]];
    BeginsMore(memory, out, more[0]);
    BeginsMore(m1, out + [more[0]], more[1]);
    BeginsMore(m1[|out| + 1 := more[1]], out + [more[0]] + [more[1]], more[2]);
    assert out + [more[0]] + [more[1]] + [more[2]] == out + more;
  }

  function Room(dest: array?<Byte>): set<array<Byte>> {
    if dest == null then {} else {dest}
  }

  // One turn of the loop: a byte goes out as it is, or as an escape, or is only counted.
  method EncodeOne(c: Byte, dest: array?<Byte>, j: nat, ghost out: Text) returns (next: nat)
    requires dest != null ==> Begins(dest[..], out) && |out| + |EncodeByte(c)| <= dest.Length
    requires j == |out|
    modifies Room(dest)
    ensures next == |out + EncodeByte(c)|
    ensures dest != null ==> Begins(dest[..], out + EncodeByte(c))
  {
    hide Begins, HexDigit, Plain;
    next := j;
    if Plain(c) {
      if dest != null {
        BeginsMore(dest[..], out, c);
        dest[j] := c;
      }
    } else {
      if dest != null {
        BeginsThree(dest[..], out, EncodeByte(c));
        dest[j] := PERCENT;
        dest[j + 1] := HexDigit(c / 16);
        dest[j + 2] := HexDigit(c % 16);
      }
      next := next + 2;
    }
    next := next + 1;
  }

  // One pass of query_encode.  Both passes end at the same index, with a buffer or without.
  method EncodePass(data: array<Byte>, ghost text: Text, dest: array?<Byte>) returns (end: nat)
    requires IsString(data[..], text)
    requires dest != null ==> dest != data && |Encode(text)| <= dest.Length
    modifies Room(dest)
    ensures end == |Encode(text)|
    ensures dest != null ==> Begins(dest[..], Encode(text))
  {
    hide Encode, Encoding, Begins, EncodeByte;
    var i, j := 0, 0;
    ghost var out: Text := [];
    WholeText(text, out);
    if dest != null { BeginsNothing(dest[..]); }
    while data[i] != 0
      invariant data[..] == old(data[..])
      invariant 0 <= i <= |text| && j == |out| && Encoding(text, i, out)
      invariant dest != null ==> Begins(dest[..], out)
      decreases |text| - i
    {
      var c := data[i];
      assert c == text[i];
      EncodingStep(text, i, out);
      j := EncodeOne(c, dest, j, out);
      out := out + EncodeByte(c);
      i := i + 1;
    }
    WholeText(text, out);
    end := j;
  }

  // query_encode: the first pass measures, the second fills a buffer of exactly that size.
  method QueryEncode(data: array<Byte>, ghost text: Text) returns (dest: array<Byte>)
    requires IsString(data[..], text)
    ensures fresh(dest) && dest[..] == Encode(text) + [0]
  {
    var sized: array?<Byte> := null;
    while true
      invariant sized != null ==> fresh(sized) && sized.Length == |Encode(text)| + 1
      decreases if sized == null then 1 else 0
    {
      var j := EncodePass(data, text, sized);
      if sized != null {
        sized[j] := 0;
        assert sized[..] == sized[..j] + [0];
        return sized;
      }
      sized := new Byte[j + 1];
    }
  }

  // One pass of query_decode.  The look-ahead never leaves the string.
  method DecodePass(data: array<Byte>, ghost text: Text, dest: array?<Byte>) returns (end: nat)
    requires IsString(data[..], text)
    requires dest != null ==> dest != data && |Decode(text)| <= dest.Length
    modifies Room(dest)
    ensures end == |Decode(text)|
    ensures dest != null ==> Begins(dest[..], Decode(text))
  {
    hide Decode, Decoding, Begins, HexValue, Escape, IsHexDigit;
    var i, j := 0, 0;
    ghost var out: Text := [];
    WholeText(text, out);
    if dest != null { BeginsNothing(dest[..]); }
    while data[i] != 0
      invariant data[..] == old(data[..])
      invariant 0 <= i <= |text| && j == |out| && Decoding(text, i, out)
      invariant dest != null ==> Begins(dest[..], out)
      decreases |text| - i
    {
      ghost var next, c := DecodingStep(text, i, out);
      EscapeIs(data[..], text, i);
      ghost var was := if dest == null then [] else dest[..];
      if data[i] == PERCENT && IsHexDigit(data[i + 1]) && IsHexDigit(data[i + 2]) {
        if dest != null {
          dest[j] := HexValue(data[i + 1]) * 16 + HexValue(data[i + 2]);
        }
        i := i + 2;
      } else if dest != null {
        if data[i] == PLUS {
          dest[j] := SPACE;
        } else {
          dest[j] := data[i];
        }
      }
      if dest != null {
        BeginsMore(was, out, c);
        assert dest[..] == was[j := c];
      }
      out := out + [c];
      i, j := i + 1, j + 1;
    }
    WholeText(text, out);
    end := j;
  }

  method QueryDecode(data: array<Byte>, ghost text: Text) returns (dest: array<Byte>)
    requires IsString(data[..], text)
    ensures fresh(dest) && dest[..] == Decode(text) + [0]
  {
    var sized: array?<Byte> := null;
    while true
      invariant sized != null ==> fresh(sized) && sized.Length == |Decode(text)| + 1
      decreases if sized == null then 1 else 0
    {
      var j := DecodePass(data, text, sized);
      if sized != null {
        sized[j] := 0;
        assert sized[..] == sized[..j] + [0];
        return sized;
      }
      sized := new Byte[j + 1];
    }
  }

  predicate IsSeparator(c: Byte) { c == AMPERSAND || c == SEMICOLON }

  predicate IsEnd(c: Byte) { c == 0 || c == HASH }

  predicate EndsName(c: Byte) { IsEnd(c) || c == EQUALS || IsSeparator(c) }

  predicate EndsData(c: Byte) { IsEnd(c) || IsSeparator(c) }

  // The length of what comes before the first byte that ends a name, or a value.
  function NameLength(text: Text): (n: nat)
    ensures n <= |text| && (n < |text| ==> EndsName(text[n]))
  {
    if text == [] || EndsName(text[0]) then 0 else 1 + NameLength(text[1..])
  }

  function DataLength(text: Text): (n: nat)
    ensures n <= |text| && (n < |text| ==> EndsData(text[n]))
  {
    if text == [] || EndsData(text[0]) then 0 else 1 + DataLength(text[1..])
  }

  datatype Piece = Piece(name: Text, data: Text)

  // The text without its first byte, when that byte separates one part from the next.
  function AfterEquals(text: Text): Text { if text != [] && text[0] == EQUALS then text[1..] else text }

  function AfterPiece(text: Text): Text { if text != [] && !IsEnd(text[0]) then text[1..] else text }

  // The pieces of a query, as the cursor of parse_query comes across them.
  function Pieces(text: Text): seq<Piece> {
    if text == [] || IsEnd(text[0]) then []
    else
      var name := NameLength(text);
      var rest := AfterEquals(text[name..]);
      var data := DataLength(rest);
      [Piece(text[..name], rest[..data])] + Pieces(AfterPiece(rest[data..]))
  }

  // The names stay as they are written; the values are decoded, and end at a NUL that decoding brings up.
  function Assigned(m: map<Text, Text>, pieces: seq<Piece>, folding: bool): map<Text, Text>
    decreases pieces
  {
    if pieces == [] then m
    else Assigned(m[Canon(pieces[0].name, folding) := UpToNul(Decode(pieces[0].data))], pieces[1..], folding)
  }

  lemma {:induction false} NameLengthIs(text: Text, n: nat)
    requires n <= |text| && (forall i :: 0 <= i < n ==> !EndsName(text[i])) && (n < |text| ==> EndsName(text[n]))
    ensures NameLength(text) == n
  {
    if n > 0 {
      NameLengthIs(text[1..], n - 1);
    }
  }

  lemma {:induction false} DataLengthIs(text: Text, n: nat)
    requires n <= |text| && (forall i :: 0 <= i < n ==> !EndsData(text[i])) && (n < |text| ==> EndsData(text[n]))
    ensures DataLength(text) == n
  {
    if n > 0 {
      DataLengthIs(text[1..], n - 1);
    }
  }

  // A form as a client would write it: names as they are, values encoded.
  datatype Field = Field(name: Text, value: Text)

  ghost predicate CleanName(name: Text) {
    forall i :: 0 <= i < |name| ==> !EndsName(name[i])
  }

  function Written(fields: seq<Field>, separators: seq<Byte>): Text
    requires |fields| == |separators|
  {
    if fields == [] then []
    else
      fields[0].name + [EQUALS] + Encode(fields[0].value)
      + if |fields| == 1 then [] else [separators[0]] + Written(fields[1..], separators[1..])
  }

  function PiecesOf(fields: seq<Field>): (pieces: seq<Piece>)
    ensures |pieces| == |fields|
    ensures forall i :: 0 <= i < |fields| ==> pieces[i] == Piece(fields[i].name, Encode(fields[i].value))
  {
    if fields == [] then []
    else [Piece(fields[0].name, Encode(fields[0].value))] + PiecesOf(fields[1..])
  }

  lemma {:induction false} NamePart(name: Text, rest: Text)
    requires CleanName(name)
    ensures var text := name + [EQUALS] + rest;
      NameLength(text) == |name| && text[..|name|] == name && AfterEquals(text[|name|..]) == rest
  {
    var text := name + [EQUALS] + rest;
    assert forall i :: 0 <= i < |name| ==> text[i] == name[i];
    NameLengthIs(text, |name|);
    assert text[|name|..] == [EQUALS] + rest;
  }

  lemma {:induction false} DataPart(data: Text, later: Text)
    requires (forall i :: 0 <= i < |data| ==> !EndsData(data[i])) && (later == [] || EndsData(later[0]))
    ensures var rest := data + later;
      DataLength(rest) == |data| && rest[..|data|] == data && rest[|data|..] == later
  {
    DataLengthIs(data + later, |data|);
  }

  lemma {:induction false} FirstPiece(name: Text, data: Text, later: Text)
    requires CleanName(name) && (forall i :: 0 <= i < |data| ==> !EndsData(data[i]))
    requires later == [] || EndsData(later[0])
    ensures Pieces(name + [EQUALS] + (data + later)) == [Piece(name, data)] + Pieces(AfterPiece(later))
  {
    hide NameLength, DataLength, AfterEquals, AfterPiece;
    var text := name + [EQUALS] + (data + later);
    assert text[0] == if name == [] then EQUALS else name[0];
    assert !IsEnd(text[0]);
    NamePart(name, data + later);
    DataPart(data, later);
  }

  // Reading a written form gives back its names and encoded values, up to a fragment if there is one.
  lemma {:induction false} PiecesOfWritten(fields: seq<Field>, separators: seq<Byte>, fragment: Text)
    requires |fields| == |separators|
    requires forall i :: 0 <= i < |fields| ==> CleanName(fields[i].name) && IsSeparator(separators[i])
    requires fragment == [] || fragment[0] == HASH
    ensures Pieces(Written(fields, separators) + fragment) == PiecesOf(fields)
  {
    hide Pieces, Encode, Written, AfterPiece;
    if fields == [] {
      assert Written(fields, separators) + fragment == fragment by { NothingWritten(); }
      NoPieces(fragment);
    } else {
      var name, data := fields[0].name, Encode(fields[0].value);
      EncodeIsClean(fields[0].value);
      var tail := if |fields| == 1 then [] else [separators[0]] + Written(fields[1..], separators[1..]);
      var later := tail + fragment;
      WrittenHead(fields, separators, fragment);
      TailStops(tail, fragment, separators[0]);
      FirstPiece(name, data, later);
      PiecesOfWritten(fields[1..], separators[1..], fragment);
      var more := Written(fields[1..], separators[1..]) + fragment;
      if |fields| == 1 {
        NothingWritten();
        assert later == fragment == more;
        AfterFragment(fragment);
      } else {
        assert later == [separators[0]] + more;
        AfterSeparator(separators[0], more);
      }
    }
  }

  lemma NothingWritten()
    ensures Written([], []) == []
  {
  }

  lemma {:induction false} WrittenHead(fields: seq<Field>, separators: seq<Byte>, fragment: Text)
    requires |fields| == |separators| > 0
    ensures var tail := if |fields| == 1 then [] else [separators[0]] + Written(fields[1..], separators[1..]);
      Written(fields, separators) + fragment ==
      fields[0].name + [EQUALS] + (Encode(fields[0].value) + (tail + fragment))
  {
    hide Encode;
  }

  // What follows a written field ends it.
  lemma {:induction false} TailStops(tail: Text, fragment: Text, separator: Byte)
    requires IsSeparator(separator) && (tail == [] || tail[0] == separator)
    requires fragment == [] || fragment[0] == HASH
    ensures var later := tail + fragment; later == [] || EndsData(later[0])
  {
  }

  lemma {:induction false} AfterFragment(fragment: Text)
    requires fragment == [] || fragment[0] == HASH
    ensures AfterPiece(fragment) == fragment
  {
  }

  lemma {:induction false} AfterSeparator(separator: Byte, more: Text)
    requires IsSeparator(separator)
    ensures AfterPiece([separator] + more) == more
  {
  }

  lemma {:induction false} NoPieces(fragment: Text)
    requires fragment == [] || fragment[0] == HASH
    ensures Pieces(fragment) == []
  {
  }

  // The meaning of a form: the last value of a name wins, and other keys keep theirs.
  ghost predicate LastPiece(pieces: seq<Piece>, folding: bool, key: Text, i: int) {
    && 0 <= i < |pieces| && Canon(pieces[i].name, folding) == key
    && forall j :: i < j < |pieces| ==> Canon(pieces[j].name, folding) != key
  }

  ghost predicate NoPiece(pieces: seq<Piece>, folding: bool, key: Text) {
    forall j :: 0 <= j < |pieces| ==> Canon(pieces[j].name, folding) != key
  }

  lemma {:induction false} OthersUnchanged(m: map<Text, Text>, pieces: seq<Piece>, folding: bool, key: Text)
    requires NoPiece(pieces, folding, key)
    ensures var after := Assigned(m, pieces, folding);
      (key in after <==> key in m) && (key in m ==> after[key] == m[key])
    decreases pieces
  {
    if pieces != [] {
      var next := m[Canon(pieces[0].name, folding) := UpToNul(Decode(pieces[0].data))];
      OthersUnchanged(next, pieces[1..], folding, key);
    }
  }

  lemma {:induction false} LastValueWins(m: map<Text, Text>, pieces: seq<Piece>, folding: bool, key: Text, i: int)
    requires LastPiece(pieces, folding, key, i)
    ensures var after := Assigned(m, pieces, folding);
      key in after && after[key] == UpToNul(Decode(pieces[i].data))
    decreases pieces
  {
    var next := m[Canon(pieces[0].name, folding) := UpToNul(Decode(pieces[0].data))];
    if i == 0 {
      OthersUnchanged(next, pieces[1..], folding, key);
    } else {
      LastValueWins(next, pieces[1..], folding, key, i - 1);
    }
  }

  ghost predicate LastValue(fields: seq<Field>, folding: bool, key: Text, i: int) {
    && 0 <= i < |fields| && Canon(fields[i].name, folding) == key
    && forall j :: i < j < |fields| ==> Canon(fields[j].name, folding) != key
  }

  ghost predicate NoField(fields: seq<Field>, folding: bool, key: Text) {
    forall j :: 0 <= j < |fields| ==> Canon(fields[j].name, folding) != key
  }

  // What a form sends is what the dictionary gets: the last value of each of its names, decoded, and
  // nothing else is touched.  The value comes back whole exactly when it holds no NUL.
  lemma {:induction false} WrittenFormAssigns(m: map<Text, Text>, fields: seq<Field>, separators: seq<Byte>,
                                              fragment: Text, folding: bool, key: Text)
    requires |fields| == |separators|
    requires forall i :: 0 <= i < |fields| ==> CleanName(fields[i].name) && IsSeparator(separators[i])
    requires fragment == [] || fragment[0] == HASH
    ensures var after := Assigned(m, Pieces(Written(fields, separators) + fragment), folding);
      && (forall i :: LastValue(fields, folding, key, i) ==>
            && key in after && after[key] == UpToNul(fields[i].value)
            && (after[key] == fields[i].value <==> NulFree(fields[i].value)))
      && (NoField(fields, folding, key) ==> (key in after <==> key in m) && (key in m ==> after[key] == m[key]))
  {
    hide Written, Pieces, Assigned, CleanName, UpToNul, NulFree;
    PiecesOfWritten(fields, separators, fragment);
    var after := Assigned(m, PiecesOf(fields), folding);
    forall i | LastValue(fields, folding, key, i)
      ensures key in after && after[key] == UpToNul(fields[i].value)
      ensures UpToNul(fields[i].value) == fields[i].value <==> NulFree(fields[i].value)
    {
      assert LastPiece(PiecesOf(fields), folding, key, i);
      LastValueWins(m, PiecesOf(fields), folding, key, i);
      DecodeEncode(fields[i].value);
      UpToNulIs(fields[i].value, []);
    }
    if NoField(fields, folding, key) {
      OthersUnchanged(m, PiecesOf(fields), folding, key);
    }
  }

  // The query a=%00b, whose value decodes to a NUL and a letter: what is stored is the empty string.
  lemma {:induction false} NulCutsValue()
    ensures var after := Assigned(map[], Pieces([97, EQUALS, PERCENT, 48, 48, 98]), false);
      [97] in after && after[[97]] == [] != [0, 98]
  {
    var fields := [Field([97], [0, 98])];
    assert Encode([98]) == [98] by { assert Encode([]) == []; }
    assert Encode([0, 98]) == [PERCENT, 48, 48, 98] by { assert [0, 98][1..] == [98]; }
    assert Written(fields, [AMPERSAND]) + [] == [97, EQUALS, PERCENT, 48, 48, 98];
    assert LastValue(fields, false, [97], 0);
    WrittenFormAssigns(map[], fields, [AMPERSAND], [], false, [97]);
  }

  // ------------------------------------------------ names that the client has encoded

  function Escaped(fields: seq<Field>): (r: seq<Field>)
    ensures |r| == |fields|
    ensures forall i :: 0 <= i < |fields| ==> r[i] == Field(Encode(fields[i].name), fields[i].value)
  {
    if fields == [] then []
    else [Field(Encode(fields[0].name), fields[0].value)] + Escaped(fields[1..])
  }

  lemma {:induction false} SomeFieldIsLast(fields: seq<Field>, folding: bool, key: Text) returns (i: int)
    requires !NoField(fields, folding, key)
    ensures LastValue(fields, folding, key, i)
  {
    var n := |fields| - 1;
    if Canon(fields[n].name, folding) == key {
      i := n;
    } else {
      i := SomeFieldIsLast(fields[..n], folding, key);
    }
  }

  lemma {:induction false} EncodedNameIsClean(name: Text)
    ensures CleanName(Encode(name))
  {
    EncodeIsClean(name);
  }

  // parse_query decodes a name and then throws the result away: the keys of a form with encoded names are
  // the encodings.
  lemma {:induction false} EncodedFormKeys(m: map<Text, Text>, fields: seq<Field>, separators: seq<Byte>,
                                           fragment: Text, folding: bool, key: Text)
    requires |fields| == |separators| && forall i :: 0 <= i < |fields| ==> IsSeparator(separators[i])
    requires fragment == [] || fragment[0] == HASH
    ensures var after := Assigned(m, Pieces(Written(Escaped(fields), separators) + fragment), folding);
      key in after <==>
      key in m || exists j :: 0 <= j < |fields| && Canon(Encode(fields[j].name), folding) == key
  {
    hide Written, Pieces, Assigned, Encode, Canon, CleanName;
    var sent := Escaped(fields);
    forall i | 0 <= i < |sent| ensures CleanName(sent[i].name) {
      EncodedNameIsClean(fields[i].name);
    }
    WrittenFormAssigns(m, sent, separators, fragment, folding, key);
    if !NoField(sent, folding, key) {
      var i := SomeFieldIsLast(sent, folding, key);
      assert Canon(Encode(fields[i].name), folding) == key;
    } else {
      assert forall j :: 0 <= j < |fields| ==> Canon(sent[j].name, folding) != key;
    }
  }

  predicate AllPlain(name: Text) { forall i :: 0 <= i < |name| ==> Plain(name[i]) }

  // Among names without a percent sign, one is found again under its own spelling exactly when it consists
  // of letters and digits, whatever the other fields are.
  lemma {:induction false} EncodedNameFound(m: map<Text, Text>, fields: seq<Field>, separators: seq<Byte>,
                                            fragment: Text, folding: bool, i: int)
    requires |fields| == |separators| && forall i :: 0 <= i < |fields| ==> IsSeparator(separators[i])
    requires fragment == [] || fragment[0] == HASH
    requires 0 <= i < |fields| && PERCENT !in fields[i].name && Canon(fields[i].name, folding) !in m
    ensures var after := Assigned(m, Pieces(Written(Escaped(fields), separators) + fragment), folding);
      Canon(fields[i].name, folding) in after <==> AllPlain(fields[i].name)
  {
    hide Written, Pieces, Assigned, Encode;
    var name := fields[i].name;
    EncodedFormKeys(m, fields, separators, fragment, folding, Canon(name, folding));
    if AllPlain(name) {
      EncodeFixed(name);
      assert Canon(Encode(fields[i].name), folding) == Canon(name, folding);
    } else {
      forall j | 0 <= j < |fields| ensures Canon(Encode(fields[j].name), folding) != Canon(name, folding) {
        if Canon(Encode(fields[j].name), folding) == Canon(name, folding) {
          PlainIfEncoded(fields[j].name, name, folding);
        }
      }
    }
  }

  // Encoding leaves a name alone exactly when it consists of letters and digits, and otherwise lengthens it.
  lemma {:induction false} EncodeFixed(name: Text)
    ensures |name| <= |Encode(name)|
    ensures Encode(name) == name <==> AllPlain(name)
    ensures |Encode(name)| == |name| ==> Encode(name) == name
  {
    if name != [] {
      EncodeFixed(name[1..]);
      assert name == [name[0]] + name[1..];
      assert forall i :: 0 < i < |name| ==> name[i] == name[1..][i - 1];
    }
  }

  lemma {:induction false} PlainIfEncoded(other: Text, name: Text, folding: bool)
    requires Canon(Encode(other), folding) == Canon(name, folding) && PERCENT !in name
    ensures AllPlain(name)
  {
    EncodeIsClean(other);
    var sent := Encode(other);
    forall k | 0 <= k < |name| ensures Plain(name[k]) {
      assert Canon(sent, folding)[k] == Canon(name, folding)[k];
      assert name[k] in name;
      assert Plain(sent[k]) || sent[k] == PERCENT;
    }
  }

  // A form of one field, whatever its name: it is found under its own spelling exactly when encoding had
  // nothing to do.
  lemma {:induction false} EncodedNameSurvives(name: Text, value: Text, folding: bool)
    ensures var after := Assigned(map[], Pieces(Written(Escaped([Field(name, value)]), [AMPERSAND])), folding);
      Canon(name, folding) in after <==> AllPlain(name)
  {
    hide Written, Pieces, Assigned, Encode;
    var fields := [Field(name, value)];
    var key := Canon(name, folding);
    var sent := Written(Escaped(fields), [AMPERSAND]);
    assert sent + [] == sent;
    EncodedFormKeys(map[], fields, [AMPERSAND], [], folding, key);
    EncodeFixed(name);
    assert key in Assigned(map[], Pieces(sent), folding) <==> Canon(Encode(name), folding) == key by {
      assert fields[0].name == name;
    }
    assert |Canon(Encode(name), folding)| == |Encode(name)| && |key| == |name|;
  }

  lemma {:induction false} SpaceSent()
    ensures Written(Escaped([Field([97, SPACE, 98], [49])]), [AMPERSAND]) == [97, PERCENT, 50, 48, 98, EQUALS, 49]
  {
    assert Encode([]) == [] && Encode([98]) == [98] && Encode([49]) == [49];
    assert Encode([SPACE, 98]) == [PERCENT, 50, 48, 98] by { assert [SPACE, 98][1..] == [98]; }
    assert Encode([97, SPACE, 98]) == [97, PERCENT, 50, 48, 98] by { assert [97, SPACE, 98][1..] == [SPACE, 98]; }
    hide Encode;
    var sent := Escaped([Field([97, SPACE, 98], [49])]);
    assert sent[0] == Field([97, PERCENT, 50, 48, 98], [49]);
  }

  // The name "a b", sent as a%20b=1, is not found.
  lemma {:induction false} EncodedNameMissed()
    ensures [97, SPACE, 98] !in Assigned(map[], Pieces([97, PERCENT, 50, 48, 98, EQUALS, 49]), false)
  {
    EncodedNameSurvives([97, SPACE, 98], [49], false);
    SpaceSent();
    assert !Plain([97, SPACE, 98][1]);
    hide Pieces, Assigned, Encode, Written, Escaped;
  }

  lemma {:induction false} TextIsString(text: Text)
    requires NulFree(text)
    ensures IsString(text + [0], text)
  {
  }

  // strndup: a fresh string of buf[from..to].
  method Duplicate(buf: array<Byte>, from: nat, to: nat) returns (s: array<Byte>)
    requires from <= to <= buf.Length && NulFree(buf[from..to])
    ensures fresh(s) && s[..] == buf[from..to] + [0] && IsString(s[..], buf[from..to])
  {
    hide IsString, NulFree;
    ghost var text := buf[from..to];
    s := new Byte[to - from + 1];
    forall i | 0 <= i < to - from { s[i] := buf[from + i]; }
    s[to - from] := 0;
    assert buf[from..to] == text;
    assert forall i :: 0 <= i < to - from ==> s[i] == text[i];
    assert s[..] == text + [0];
    TextIsString(text);
  }

  // The two inner loops of parse_query.
  method ScanName(buf: array<Byte>, ghost text: Text, start: nat) returns (pos: nat)
    requires IsString(buf[..], text) && start <= |text|
    ensures pos == start + NameLength(text[start..])
  {
    pos := start;
    while !IsEnd(buf[pos]) && buf[pos] != EQUALS && !IsSeparator(buf[pos])
      invariant start <= pos <= |text| && NameLength(text[start..]) == pos - start + NameLength(text[pos..])
      decreases |text| - pos
    {
      assert text[pos..][1..] == text[pos + 1..];
      pos := pos + 1;
    }
  }

  method ScanData(buf: array<Byte>, ghost text: Text, start: nat) returns (pos: nat)
    requires IsString(buf[..], text) && start <= |text|
    ensures pos == start + DataLength(text[start..])
  {
    pos := start;
    while !IsEnd(buf[pos]) && !IsSeparator(buf[pos])
      invariant start <= pos <= |text| && DataLength(text[start..]) == pos - start + DataLength(text[pos..])
      decreases |text| - pos
    {
      assert text[pos..][1..] == text[pos + 1..];
      pos := pos + 1;
    }
  }

  // The piece at a cursor: where its name and its value end, and where the next one begins.
  ghost predicate PieceAt(text: Text, start: nat, nameEnd: nat, dataStart: nat, dataEnd: nat) {
    && start < |text| && !IsEnd(text[start])
    && start <= nameEnd <= dataStart <= dataEnd <= |text|
    && nameEnd == start + NameLength(text[start..])
    && dataStart == (if nameEnd < |text| && text[nameEnd] == EQUALS then nameEnd + 1 else nameEnd)
    && dataEnd == dataStart + DataLength(text[dataStart..])
  }

  lemma {:induction false} PieceRead(text: Text, start: nat, nameEnd: nat, dataStart: nat, dataEnd: nat)
    requires PieceAt(text, start, nameEnd, dataStart, dataEnd)
    ensures var next := NextPiece(text, dataEnd);
      && start < next
      && Pieces(text[start..]) == [Piece(text[start..nameEnd], text[dataStart..dataEnd])] + Pieces(text[next..])
  {
    hide Pieces, NameLength, DataLength, AfterEquals, AfterPiece, NextPiece, IsEnd;
    MovesOn(text, start, nameEnd, dataStart, dataEnd);
    PieceParts(text, start, nameEnd, dataStart, dataEnd);
    var after := text[NextPiece(text, dataEnd)..];
    PiecesUnfold(text[start..], nameEnd - start, text[dataStart..], dataEnd - dataStart, after);
  }

  lemma {:induction false} PieceParts(text: Text, start: nat, nameEnd: nat, dataStart: nat, dataEnd: nat)
    requires PieceAt(text, start, nameEnd, dataStart, dataEnd)
    ensures var here, rest := text[start..], text[dataStart..];
      && here[0] == text[start] && NextPiece(text, dataEnd) <= |text|
      && here[..nameEnd - start] == text[start..nameEnd] && AfterEquals(here[nameEnd - start..]) == rest
      && rest[..dataEnd - dataStart] == text[dataStart..dataEnd]
      && AfterPiece(rest[dataEnd - dataStart..]) == text[NextPiece(text, dataEnd)..]
  {
    hide NameLength, DataLength, AfterEquals, AfterPiece;
    Suffix(text, start, nameEnd);
    Suffix(text, dataStart, dataEnd);
    EqualsTaken(text, nameEnd);
    PieceTaken(text, dataEnd);
  }

  // Every piece takes up at least one character.
  lemma {:induction false} MovesOn(text: Text, start: nat, nameEnd: nat, dataStart: nat, dataEnd: nat)
    requires PieceAt(text, start, nameEnd, dataStart, dataEnd)
    ensures start < NextPiece(text, dataEnd) <= |text|
  {
    hide NameLength, DataLength;
    assert nameEnd < |text| ==> EndsName(text[nameEnd]) by {
      assert nameEnd < |text| ==> text[start..][nameEnd - start] == text[nameEnd];
    }
    assert dataEnd < |text| ==> text[dataStart..][dataEnd - dataStart] == text[dataEnd];
  }

  lemma {:induction false} EqualsTaken(text: Text, at: nat)
    requires at <= |text|
    ensures AfterEquals(text[at..]) == text[if at < |text| && text[at] == EQUALS then at + 1 else at..]
  {
  }

  lemma {:induction false} PieceTaken(text: Text, at: nat)
    requires at <= |text|
    ensures AfterPiece(text[at..]) == text[NextPiece(text, at)..]
  {
  }

  lemma {:induction false} PiecesUnfold(here: Text, name: nat, rest: Text, data: nat, after: Text)
    requires here != [] && !IsEnd(here[0])
    requires name == NameLength(here) && rest == AfterEquals(here[name..])
    requires data == DataLength(rest) && after == AfterPiece(rest[data..])
    ensures Pieces(here) == [Piece(here[..name], rest[..data])] + Pieces(after)
  {
  }

  lemma {:induction false} Suffix(text: Text, from: nat, to: nat)
    requires from <= to <= |text|
    ensures text[from..][to - from..] == text[to..] && text[from..][..to - from] == text[from..to]
  {
  }

  lemma {:induction false} AssignFirst(m: map<Text, Text>, text: Text, start: nat, piece: Piece, next: nat,
                                       folding: bool)
    requires start <= |text| && next <= |text| && Pieces(text[start..]) == [piece] + Pieces(text[next..])
    ensures Assigned(m, Pieces(text[start..]), folding) ==
            Assigned(m[Canon(piece.name, folding) := UpToNul(Decode(piece.data))], Pieces(text[next..]), folding)
  {
  }

  lemma {:induction false} NextIs(text: Text, end: nat, c: Byte, memory: seq<Byte>)
    requires end <= |text| && IsString(memory, text) && c == memory[end]
    ensures NextPiece(text, end) == if IsEnd(c) then end else end + 1
  {
  }

  lemma {:induction false} EndOfPieces(m: map<Text, Text>, text: Text, pos: nat, folding: bool)
    requires pos <= |text| && (pos < |text| ==> IsEnd(text[pos]))
    ensures Assigned(m, Pieces(text[pos..]), folding) == m
  {
  }

  lemma {:induction false} PartIsString(memory: seq<Byte>, text: Text, from: nat, to: nat)
    requires IsString(memory, text) && from <= to <= |text|
    ensures memory[from..to] == text[from..to] && NulFree(text[from..to])
  {
  }

  function NextPiece(text: Text, end: nat): nat {
    if end < |text| && !IsEnd(text[end]) then end + 1 else end
  }

  // The first half of the loop body of parse_query: copies of one name and one value.
  method ReadPiece(buf: array<Byte>, ghost text: Text, start: nat)
      returns (name: array<Byte>, data: array<Byte>, end: nat, ghost piece: Piece)
    requires IsString(buf[..], text) && start < |text| && !IsEnd(text[start])
    ensures fresh(name) && name[..] == piece.name + [0] && IsString(name[..], piece.name)
    ensures fresh(data) && data[..] == piece.data + [0] && IsString(data[..], piece.data)
    ensures end <= |text| && start < NextPiece(text, end) <= |text|
    ensures Pieces(text[start..]) == [piece] + Pieces(text[NextPiece(text, end)..])
  {
    hide Pieces, NameLength, DataLength;
    var pos := ScanName(buf, text, start);
    ghost var nameEnd := pos;
    PartIsString(buf[..], text, start, pos);
    name := Duplicate(buf, start, pos);
    assert pos < |text| ==> buf[pos] == text[pos];
    if !IsEnd(buf[pos]) && !IsSeparator(buf[pos]) {
      pos := pos + 1;
    }
    var dataStart := pos;
    end := ScanData(buf, text, pos);
    PartIsString(buf[..], text, dataStart, end);
    data := Duplicate(buf, dataStart, end);
    PieceRead(text, start, nameEnd, dataStart, end);
    piece := Piece(text[start..nameEnd], text[dataStart..end]);
  }

  // parse_query: every piece of the text assigns a decoded value to a name that is left as it stands.  The
  // dictionary holds pointers; what they give a caller is the string up to its first NUL.
  method ParseQuery(buf: array<Byte>, ghost text: Text, d: Dictionary<Text>)
    requires IsString(buf[..], text) && d.Valid()
    modifies d`count, d`keys, d`values, d.keys, d.values
    ensures d.Valid() && d.Contents() == Assigned(old(d.Contents()), Pieces(text), d.folding)
    ensures d.keys == old(d.keys) || fresh(d.keys)
    ensures d.values == old(d.values) || fresh(d.values)
  {
    hide Pieces, Assigned, Decode, UpToNul, MapOf, Canon, Unique, NextPiece;
    var pos := 0;
    assert text[0..] == text;
    while !IsEnd(buf[pos])
      invariant pos <= |text| && buf[..] == old(buf[..]) && d.Valid()
      invariant d.keys == old(d.keys) || fresh(d.keys)
      invariant d.values == old(d.values) || fresh(d.values)
      invariant Assigned(old(d.Contents()), Pieces(text), d.folding) ==
                Assigned(d.Contents(), Pieces(text[pos..]), d.folding)
      decreases |text| - pos
    {
      pos := ParsePiece(buf, text, pos, d);
    }
    EndOfPieces(d.Contents(), text, pos, d.folding);
  }

  // One turn of its loop.
  method ParsePiece(buf: array<Byte>, ghost text: Text, start: nat, d: Dictionary<Text>) returns (pos: nat)
    requires IsString(buf[..], text) && d.Valid() && start <= |text| && !IsEnd(buf[start])
    modifies d`count, d`keys, d`values, d.keys, d.values
    ensures buf[..] == old(buf[..]) && d.Valid() && start < pos <= |text|
    ensures d.keys == old(d.keys) || fresh(d.keys)
    ensures d.values == old(d.values) || fresh(d.values)
    ensures Assigned(old(d.Contents()), Pieces(text[start..]), d.folding) ==
            Assigned(d.Contents(), Pieces(text[pos..]), d.folding)
  {
    hide Pieces, Assigned, Decode, UpToNul, MapOf, Canon, Unique, NextPiece, NulFree;
    assert start < |text| && buf[start] == text[start];
    var name, data;
    ghost var piece;
    name, data, pos, piece := ReadPiece(buf, text, start);
    var dName := QueryDecode(name, piece.name);
    var dData := QueryDecode(data, piece.data);
    AssignFirst(d.Contents(), text, start, piece, NextPiece(text, pos), d.folding);
    StringRead(name[..], piece.name);
    UpToNulIs(Decode(piece.data), []);
    assert dData[..] == Decode(piece.data) + [0] + [];
    d.Set(UpToNul(name[..]), UpToNul(dData[..]));
    NextIs(text, pos, buf[pos], buf[..]);
    if !IsEnd(buf[pos]) {
      pos := pos + 1;
    }
  }
}
