/** The buffered half of the Rio package of Serverlab/csapp.c.

    A descriptor is what the next calls of read() will answer, one entry a call: some bytes, an
    interruption, a failure or an end of file.  Flattening those answers gives the stream as a caller
    should see it, `Items`, in which the sizes of the individual reads and the interruptions have
    disappeared.  rio_readnb and rio_readlineb are then proved to be functions of that stream alone. */
module RobustIo {

  const BUFFER_SIZE: nat := 8192   // RIO_BUFSIZE
  const NEWLINE: Byte := '\n'

  type Byte = char   // C's char; only newline and NUL matter here
  type Chunk = s: seq<Byte> | 0 < |s| witness ['0']

  datatype Answer = Data(bytes: Chunk) | Interrupted | Fault | EndOfFile

  datatype Item = One(value: Byte) | End | Bad

  function Ones(bytes: seq<Byte>): (items: seq<Item>)
    ensures |items| == |bytes|
    ensures forall i :: 0 <= i < |bytes| ==> items[i] == One(bytes[i])
  {
    seq(|bytes|, i requires 0 <= i < |bytes| => One(bytes[i]))
  }

  function ItemsOf(answer: Answer): seq<Item> {
    match answer
    case Data(bytes) => Ones(bytes)
    case Interrupted => []
    case Fault => [Bad]
    case EndOfFile => [End]
  }

  function Flatten(answers: seq<Answer>): seq<Item> {
    if answers == [] then [] else ItemsOf(answers[0]) + Flatten(answers[1..])
  }

  // A read smaller than what has arrived leaves the rest for the next one.
  lemma {:induction false} SplitArrival(answers: seq<Answer>, bytes: Chunk, got: nat, rest: Chunk)
    requires answers != [] && answers[0] == Data(bytes) && got < |bytes| && rest == bytes[got..]
    ensures Ones(bytes[..got]) + Flatten([Data(rest)] + answers[1..]) == Flatten(answers)
  {
  }

  lemma {:induction false} NoAnswers()
    ensures Flatten([]) == []
  {
  }

  lemma {:induction false} WholeArrival(answers: seq<Answer>)
    requires answers != []
    ensures Flatten(answers) == ItemsOf(answers[0]) + Flatten(answers[1..])
  {
  }

  // The bytes among the items, in order.
  function BytesOf(items: seq<Item>): seq<Byte> {
    if items == [] then []
    else (if items[0].One? then [items[0].value] else []) + BytesOf(items[1..])
  }

  lemma {:induction false} BytesOfAppend(a: seq<Item>, b: seq<Item>)
    ensures BytesOf(a + b) == BytesOf(a) + BytesOf(b)
  {
    if a == [] {
      assert a + b == b;
    } else {
      BytesOfAppend(a[1..], b);
      assert (a + b)[1..] == a[1..] + b;
      var head := if a[0].One? then [a[0].value] else [];
      assert head + (BytesOf(a[1..]) + BytesOf(b)) == head + BytesOf(a[1..]) + BytesOf(b);
    }
  }

  lemma {:induction false} BytesOfOnes(bytes: seq<Byte>)
    ensures BytesOf(Ones(bytes)) == bytes
  {
    if bytes != [] {
      BytesOfOnes(bytes[1..]);
      assert Ones(bytes)[1..] == Ones(bytes[1..]);
      assert bytes == [bytes[0]] + bytes[1..];
    }
  }

  lemma {:induction false} NoOnes(window: seq<Byte>, later: seq<Item>)
    requires window == []
    ensures Ones(window) + later == later
  {
  }

  lemma {:induction false} OnesAt(chunk: seq<Byte>, items: seq<Item>)
    requires 0 < |chunk| <= |items| && items[..|chunk|] == Ones(chunk)
    ensures items[0] == One(chunk[0])
  {
  }

  lemma {:induction false} SplitWindow(window: seq<Byte>, count: nat, later: seq<Item>)
    requires count <= |window|
    ensures (Ones(window) + later)[..count] == Ones(window[..count])
    ensures (Ones(window) + later)[count..] == Ones(window[count..]) + later
  {
  }

  datatype Stop = Newline | Full | Ended | Failed

  // What one request takes: the bytes, why it stopped, and how many items are gone afterwards.
  datatype Taken = Taken(bytes: seq<Byte>, stop: Stop, used: nat)

  // Up to `room` bytes of a stream; up to and including the first newline when `line` is set.
  function Scan(items: seq<Item>, room: nat, line: bool): (t: Taken)
    ensures t.used <= |items| && |t.bytes| <= room
    decreases room
  {
    if room == 0 then Taken([], Full, 0)
    else if items == [] then Taken([], Ended, 0)
    else
      match items[0]
      case End => Taken([], Ended, 1)
      case Bad => Taken([], Failed, 1)
      case One(b) =>
        if line && b == NEWLINE then Taken([b], Newline, 1)
        else
          var t := Scan(items[1..], room - 1, line);
          Taken([b] + t.bytes, t.stop, 1 + t.used)
  }

  // The stream begins with these bytes.
  ghost predicate Leads(bytes: seq<Byte>, items: seq<Item>) {
    |bytes| <= |items| && forall i :: 0 <= i < |bytes| ==> items[i] == One(bytes[i])
  }

  // The bytes taken are the first bytes of the stream.
  lemma {:induction false} ScanPrefix(items: seq<Item>, room: nat, line: bool)
    ensures var t := Scan(items, room, line);
      |t.bytes| <= t.used && Leads(t.bytes, items)
  {
    if room != 0 && items != [] && items[0].One? && !(line && items[0].value == NEWLINE) {
      ScanPrefix(items[1..], room - 1, line);
      var u := Scan(items[1..], room - 1, line).bytes;
      forall i | 0 < i < 1 + |u| ensures items[i] == One(u[i - 1]) {
        assert items[i] == items[1..][i - 1];
      }
    }
  }

  // Nothing but at most one marker goes with them.
  lemma {:induction false} ScanMarker(items: seq<Item>, room: nat, line: bool)
    ensures var t := Scan(items, room, line);
      t.used <= |t.bytes| + 1 && (t.used == |t.bytes| + 1 ==> t.used <= |items| && !items[t.used - 1].One?)
  {
    if room != 0 && items != [] && items[0].One? && !(line && items[0].value == NEWLINE) {
      ScanMarker(items[1..], room - 1, line);
    }
  }

  lemma {:induction false} ScanConserves(items: seq<Item>, room: nat, line: bool)
    ensures var t := Scan(items, room, line);
      BytesOf(items[..t.used]) == t.bytes && BytesOf(items) == t.bytes + BytesOf(items[t.used..])
  {
    var t := Scan(items, room, line);
    ScanPrefix(items, room, line);
    assert items[..|t.bytes|] == Ones(t.bytes);
    ScanMarker(items, room, line);
    BytesOfOnes(t.bytes);
    if t.used > |t.bytes| {
      BytesOfAppend(Ones(t.bytes), [items[|t.bytes|]]);
      assert items[..t.used] == Ones(t.bytes) + [items[|t.bytes|]];
    }
    BytesOfAppend(items[..t.used], items[t.used..]);
    assert items == items[..t.used] + items[t.used..];
  }

  ghost predicate NewlineLast(bytes: seq<Byte>) { forall i :: 0 <= i < |bytes| - 1 ==> bytes[i] != NEWLINE }

  // A line stops at its first newline, when the room is used up, or where the stream stops, whichever
  // comes first.
  lemma {:induction false} LineStopsWhereItMust(items: seq<Item>, room: nat)
    ensures var t := Scan(items, room, true);
      && (t.stop == Newline <==> t.bytes != [] && t.bytes[|t.bytes| - 1] == NEWLINE)
      && NewlineLast(t.bytes)
  {
    if room != 0 && items != [] && items[0].One? && items[0].value != NEWLINE {
      LineStopsWhereItMust(items[1..], room - 1);
    }
  }

  lemma {:induction false} ScanStopsWhereItMust(items: seq<Item>, room: nat, line: bool)
    ensures var t := Scan(items, room, line);
      var k := |t.bytes|;
      && k <= |items|
      && (t.stop == Newline ==> line)
      && (t.stop == Full <==> k == room && t.stop != Newline)
      && (t.stop == Ended ==> k == |items| || items[k] == End)
      && (t.stop == Failed ==> k < |items| && items[k] == Bad)
      && (t.used == k + if t.stop == Failed || (t.stop == Ended && k < |items|) then 1 else 0)
  {
    if room != 0 && items != [] && items[0].One? && !(line && items[0].value == NEWLINE) {
      ScanStopsWhereItMust(items[1..], room - 1, line);
    }
  }

  // The scan comes to item k, past bytes that do not stop it.
  ghost predicate Comes(items: seq<Item>, room: int, line: bool, k: int) {
    && 0 <= k < room && k <= |items|
    && forall i :: 0 <= i < k ==> items[i].One? && !(line && items[i].value == NEWLINE)
  }

  ghost predicate EndAt(items: seq<Item>, k: int) { k == |items| || (0 <= k < |items| && items[k] == End) }

  ghost predicate BadAt(items: seq<Item>, k: int) { 0 <= k < |items| && items[k] == Bad }

  ghost predicate NewlineAt(items: seq<Item>, k: int) { 0 <= k < |items| && items[k] == One(NEWLINE) }

  lemma {:induction false} StopComes(items: seq<Item>, room: nat, line: bool)
    ensures var t := Scan(items, room, line);
      var k := |t.bytes| - if t.stop == Newline then 1 else 0;
      && (t.stop != Full ==> Comes(items, room, line, k))
      && (t.stop == Ended ==> EndAt(items, k)) && (t.stop == Failed ==> BadAt(items, k))
      && (t.stop == Newline ==> line && NewlineAt(items, k))
  {
    if room != 0 && items != [] && items[0].One? && !(line && items[0].value == NEWLINE) {
      StopComes(items[1..], room - 1, line);
    }
  }

  lemma {:induction false} ComesStops(items: seq<Item>, room: nat, line: bool, k: int)
    requires Comes(items, room, line, k)
    ensures var t := Scan(items, room, line);
      && (EndAt(items, k) ==> t.stop == Ended && |t.bytes| == k)
      && (BadAt(items, k) ==> t.stop == Failed && |t.bytes| == k)
      && (line && NewlineAt(items, k) ==> t.stop == Newline && |t.bytes| == k + 1)
    decreases k
  {
    if k > 0 {
      assert items[0].One? && !(line && items[0].value == NEWLINE);
      ComesStops(items[1..], room - 1, line, k - 1);
    }
  }

  // A request stops for each reason exactly when, past bytes that do not stop it and with room left, it comes
  // to what is that reason in the stream.
  lemma {:induction false} StopsExactlyWhen(items: seq<Item>, room: nat, line: bool)
    ensures var t := Scan(items, room, line);
      && (t.stop == Failed <==> exists k :: Comes(items, room, line, k) && BadAt(items, k))
      && (t.stop == Ended <==> exists k :: Comes(items, room, line, k) && EndAt(items, k))
      && (t.stop == Newline <==> line && exists k :: Comes(items, room, line, k) && NewlineAt(items, k))
  {
    hide Scan, Comes, BadAt, EndAt, NewlineAt;
    StopComes(items, room, line);
    forall k | Comes(items, room, line, k)
      ensures var t := Scan(items, room, line);
        && (BadAt(items, k) ==> t.stop == Failed) && (EndAt(items, k) ==> t.stop == Ended)
        && (line && NewlineAt(items, k) ==> t.stop == Newline)
    {
      ComesStops(items, room, line, k);
    }
  }

  // Bytes are taken and not reported exactly when a failure comes after at least one of them.
  lemma {:induction false} LostExactlyWhen(items: seq<Item>, room: nat, line: bool)
    ensures var t := Scan(items, room, line);
      t.stop == Failed && t.bytes != [] <==> exists k :: 0 < k && Comes(items, room, line, k) && BadAt(items, k)
  {
    hide Scan, Comes, BadAt, EndAt, NewlineAt;
    StopComes(items, room, line);
    forall k | Comes(items, room, line, k) && BadAt(items, k)
      ensures var t := Scan(items, room, line); t.stop == Failed && |t.bytes| == k
    {
      ComesStops(items, room, line, k);
    }
  }

  // What a scan has taken once it has also taken `bytes` first.
  function After(bytes: seq<Byte>, t: Taken): Taken {
    Taken(bytes + t.bytes, t.stop, |bytes| + t.used)
  }

  lemma {:induction false} AfterTwice(first: seq<Byte>, second: seq<Byte>, t: Taken)
    ensures After(first, After(second, t)) == After(first + second, t)
  {
    assert first + (second + t.bytes) == first + second + t.bytes;
  }

  // A counted read may be served in as many pieces as arrive.
  lemma {:induction false} ScanAfter(items: seq<Item>, chunk: seq<Byte>, room: nat)
    requires |chunk| <= room && Leads(chunk, items)
    ensures Scan(items, room, false) == After(chunk, Scan(items[|chunk|..], room - |chunk|, false))
  {
    if chunk == [] {
      assert items[0..] == items;
    } else {
      forall i | 0 <= i < |chunk| - 1 ensures items[1..][i] == One(chunk[1..][i]) {
        assert items[1..][i] == items[i + 1];
      }
      ScanAfter(items[1..], chunk[1..], room - 1);
      var t := Scan(items[|chunk|..], room - |chunk|, false);
      assert items[1..][|chunk| - 1..] == items[|chunk|..];
      AfterTwice([chunk[0]], chunk[1..], t);
      assert [chunk[0]] + chunk[1..] == chunk;
    }
  }

  // Part way through a scan of `was`: `bytes` are taken, and `left` more are wanted from `items`.
  ghost predicate Midway(was: seq<Item>, bytes: seq<Byte>, items: seq<Item>, room: nat, left: int, line: bool) {
    && 0 <= left && |bytes| + left == room
    && |bytes| <= |was| && items == was[|bytes|..]
    && Scan(was, room, line) == After(bytes, Scan(items, left, line))
  }

  lemma {:induction false} MidwayStart(was: seq<Item>, room: nat, line: bool)
    ensures Midway(was, [], was, room, room, line)
  {
    assert was[0..] == was;
    var t := Scan(was, room, line);
    assert [] + t.bytes == t.bytes;
  }

  lemma {:induction false} MidwayChunk(was: seq<Item>, bytes: seq<Byte>, items: seq<Item>, room: nat, left: int,
                                       chunk: seq<Byte>)
    requires Midway(was, bytes, items, room, left, false)
    requires |chunk| <= left && |chunk| <= |items| && items[..|chunk|] == Ones(chunk)
    ensures Midway(was, bytes + chunk, items[|chunk|..], room, left - |chunk|, false)
  {
    assert forall i :: 0 <= i < |chunk| ==> items[i] == items[..|chunk|][i] == One(chunk[i]);
    hide Ones, Scan;
    ScanAfter(items, chunk, left);
    assert items[|chunk|..] == was[|bytes + chunk|..];
    AfterTwice(bytes, chunk, Scan(items[|chunk|..], left - |chunk|, false));
  }

  lemma {:induction false} MidwayByte(was: seq<Item>, bytes: seq<Byte>, items: seq<Item>, room: nat, left: int, b: Byte)
    requires Midway(was, bytes, items, room, left, true) && 0 < left && items != [] && items[0] == One(b)
    ensures b != NEWLINE ==> Midway(was, bytes + [b], items[1..], room, left - 1, true)
    ensures b == NEWLINE ==>
      Scan(was, room, true) == Taken(bytes + [b], Newline, |bytes| + 1) && was[|bytes| + 1..] == items[1..]
  {
    assert items[1..] == was[|bytes + [b]|..];
    if b != NEWLINE {
      var t := Scan(items[1..], left - 1, true);
      assert bytes + ([b] + t.bytes) == bytes + [b] + t.bytes;
    }
  }

  lemma {:induction false} MidwayStop(was: seq<Item>, bytes: seq<Byte>, items: seq<Item>, room: nat, left: int,
                                      line: bool)
    requires Midway(was, bytes, items, room, left, line)
    requires left == 0 || items == [] || !items[0].One?
    ensures var t := Scan(was, room, line);
      && t.bytes == bytes
      && t.stop == (if left == 0 then Full else if items == [] || items[0] == End then Ended else Failed)
      && was[t.used..] == if left == 0 || items == [] then items else items[1..]
  {
    assert bytes + [] == bytes;
  }

  // A caller's buffer with `bytes` written over its beginning.
  ghost predicate Holds(now: seq<Byte>, was: seq<Byte>, bytes: seq<Byte>) {
    |bytes| <= |was| && now == bytes + was[|bytes|..]
  }

  lemma {:induction false} HoldsNothing(was: seq<Byte>)
    ensures Holds(was, was, [])
  {
    assert was == [] + was[0..];
  }

  lemma {:induction false} HoldsLength(now: seq<Byte>, was: seq<Byte>, bytes: seq<Byte>)
    requires Holds(now, was, bytes)
    ensures |now| == |was| && |bytes| <= |was|
  {
  }

  lemma {:induction false} HoldsMore(now: seq<Byte>, was: seq<Byte>, bytes: seq<Byte>, then': seq<Byte>,
                                     chunk: seq<Byte>)
    requires Holds(now, was, bytes) && |bytes| + |chunk| <= |was| == |then'|
    requires then'[..|bytes|] == now[..|bytes|] && then'[|bytes|..|bytes| + |chunk|] == chunk
    requires then'[|bytes| + |chunk|..] == now[|bytes| + |chunk|..]
    ensures Holds(then', was, bytes + chunk)
  {
    assert then' == then'[..|bytes|] + then'[|bytes|..|bytes| + |chunk|] + then'[|bytes| + |chunk|..];
  }

  datatype Request = Line(maxlen: nat) | Count(n: nat)

  function Answered(items: seq<Item>, request: Request): Taken {
    match request
    case Line(maxlen) => Scan(items, if maxlen == 0 then 0 else maxlen - 1, true)
    case Count(n) => Scan(items, n, false)
  }

  function Size(request: Request): nat {
    match request
    case Line(maxlen) => maxlen
    case Count(n) => n
  }

  // rio_readlineb closes its line with a NUL, except on a failure or when the stream had already ended.
  function Content(t: Taken): seq<Byte> {
    if t.stop == Failed || (t.stop == Ended && t.bytes == []) then t.bytes else t.bytes + ['\0']
  }

  // A line is closed unless a failure comes before it is complete, or the stream ends where it would begin.
  lemma {:induction false} ClosedExactlyWhen(items: seq<Item>, maxlen: nat)
    ensures var t := Answered(items, Line(maxlen));
      Content(t) == t.bytes + ['\0'] <==>
      && !(1 < maxlen && EndAt(items, 0))
      && !exists k :: Comes(items, maxlen - 1, true, k) && BadAt(items, k)
  {
    var room := if maxlen == 0 then 0 else maxlen - 1;
    hide Scan, BadAt, EndAt;
    StopsExactlyWhen(items, room, true);
    StopComes(items, room, true);
    if 1 < maxlen {
      assert Comes(items, room, true, 0);
      if EndAt(items, 0) { ComesStops(items, room, true, 0); }
    }
  }

  // A line of room for maxlen bytes is full after maxlen - 1 of them without a newline, a counted read after n.
  lemma {:induction false} FullExactlyWhen(items: seq<Item>, n: nat)
    ensures Answered(items, Line(n)).stop == Full <==>
            n <= 1 || (n - 1 <= |items| && forall i :: 0 <= i < n - 1 ==> items[i].One? && items[i].value != NEWLINE)
    ensures Answered(items, Line(n)).stop == Full ==> |Answered(items, Line(n)).bytes| == if n == 0 then 0 else n - 1
    ensures Answered(items, Count(n)).stop == Full <==> n <= |items| && forall i :: 0 <= i < n ==> items[i].One?
    ensures Answered(items, Count(n)).stop == Full ==> |Answered(items, Count(n)).bytes| == n
  {
    ScanFull(items, if n == 0 then 0 else n - 1, true);
    ScanFull(items, n, false);
  }

  lemma {:induction false} ScanFull(items: seq<Item>, room: nat, line: bool)
    ensures var t := Scan(items, room, line);
      && (t.stop == Full <==> room <= |items|
                              && forall i :: 0 <= i < room ==> items[i].One? && !(line && items[i].value == NEWLINE))
      && (t.stop == Full ==> |t.bytes| == room)
    decreases room
  {
    if room > 0 && items != [] && items[0].One? && !(line && items[0].value == NEWLINE) {
      ScanFull(items[1..], room - 1, line);
      assert forall i :: 0 < i < |items| ==> items[i] == items[1..][i - 1];
    }
  }

  // A limit of zero still writes the NUL.
  lemma ZeroLimitClosed(items: seq<Item>)
    ensures Answered(items, Line(0)) == Taken([], Full, 0) && Content(Answered(items, Line(0))) == ['\0']
  {
  }

  // One byte, and then a failure.
  lemma {:induction false} ByteLost(line: bool)
    ensures Scan([One('a'), Bad], 2, line) == Taken(['a'], Failed, 2)
  {
    assert [One('a'), Bad][1..] == [Bad];
  }

  // What a whole run of requests hands out, and what is left of the stream.
  function Served(items: seq<Item>, requests: seq<Request>): (seq<Byte>, seq<Item>)
    decreases requests
  {
    if requests == [] then ([], items)
    else
      var t := Answered(items, requests[0]);
      var (bytes, rest) := Served(items[t.used..], requests[1..]);
      (t.bytes + bytes, rest)
  }

  lemma {:induction false} ServedUnfold(items: seq<Item>, requests: seq<Request>)
    ensures requests == [] ==> Served(items, requests) == ([], items)
    ensures requests != [] ==>
      var t := Answered(items, requests[0]);
      var (bytes, rest) := Served(items[t.used..], requests[1..]);
      Served(items, requests) == (t.bytes + bytes, rest)
  {
  }

  // However lines and counted reads are mixed, every byte of the stream is handed out once, in order.
  lemma {:induction false} RunsLoseNothing(items: seq<Item>, requests: seq<Request>)
    ensures BytesOf(items) == Served(items, requests).0 + BytesOf(Served(items, requests).1)
    decreases |requests|
  {
    if requests != [] {
      var t := Answered(items, requests[0]);
      match requests[0] {
        case Line(maxlen) => ScanConserves(items, if maxlen == 0 then 0 else maxlen - 1, true);
        case Count(n) => ScanConserves(items, n, false);
      }
      RunsLoseNothing(items[t.used..], requests[1..]);
    }
  }

  // A read that brings no bytes: the stream is over, or a marker is taken from it.
  ghost predicate NothingLeft(items: seq<Item>, later: seq<Item>, r: int) {
    (r == 0 && items == later == []) || items == [if r == 0 then End else Bad] + later
  }

  // One rio_read of at most n bytes into a buffer at `at`.
  ghost predicate Got(items: seq<Item>, later: seq<Item>, now: seq<Byte>, next: seq<Byte>, at: nat, n: nat, r: int,
                      handed: seq<Byte>, handedNext: seq<Byte>)
  {
    && -1 <= r <= n && |next| == |now| && at + n <= |now|
    && (r <= 0 ==>
          && next == now && handedNext == handed
          && NothingLeft(items, later, r))
    && (r > 0 ==>
          && r <= |items| && later == items[r..] && items[..r] == Ones(next[at..at + r])
          && handedNext == handed + next[at..at + r]
          && next[..at] == now[..at] && next[at + r..] == now[at + r..])
  }

  lemma {:induction false} GotWindow(window: seq<Byte>, later: seq<Item>, now: seq<Byte>, next: seq<Byte>,
                                     at: nat, n: nat, r: nat, handed: seq<Byte>)
    requires 0 < r <= n && r <= |window| && at + n <= |now| == |next|
    requires next[at..at + r] == window[..r] && next[..at] == now[..at] && next[at + r..] == now[at + r..]
    ensures Got(Ones(window) + later, Ones(window[r..]) + later, now, next, at, n, r, handed, handed + window[..r])
  {
    SplitWindow(window, r, later);
  }

  // Where a request began: the stream, the caller's buffer and the bytes already handed out.
  datatype Call = Call(was: seq<Item>, mine: seq<Byte>, handed: seq<Byte>, room: nat, line: bool)

  ghost predicate Underway(c: Call, bytes: seq<Byte>, items: seq<Item>, now: seq<Byte>, handed: seq<Byte>) {
    && Midway(c.was, bytes, items, c.room, c.room - |bytes|, c.line)
    && Holds(now, c.mine, bytes) && handed == c.handed + bytes
  }

  ghost predicate Finished(c: Call, content: seq<Byte>, items: seq<Item>, now: seq<Byte>, handed: seq<Byte>) {
    var t := Scan(c.was, c.room, c.line);
    items == c.was[t.used..] && Holds(now, c.mine, content) && handed == c.handed + t.bytes
  }

  lemma {:induction false} CallStarts(c: Call)
    ensures Underway(c, [], c.was, c.mine, c.handed)
  {
    MidwayStart(c.was, c.room, c.line);
    HoldsNothing(c.mine);
  }

  lemma {:induction false} GotChunk(items: seq<Item>, later: seq<Item>, now: seq<Byte>, next: seq<Byte>, at: nat,
                                    n: nat, r: int, handed: seq<Byte>, handedNext: seq<Byte>)
      returns (chunk: seq<Byte>)
    requires r > 0 && Got(items, later, now, next, at, n, r, handed, handedNext)
    ensures |chunk| == r <= n && |next| == |now| && at + r <= |now|
    ensures r <= |items| && items[..r] == Ones(chunk) && items[0] == One(chunk[0]) && later == items[r..]
    ensures handedNext == handed + chunk && next[at..at + r] == chunk
    ensures next[..at] == now[..at] && next[at + r..] == now[at + r..]
  {
    chunk := next[at..at + r];
    OnesAt(chunk, items);
  }

  lemma {:induction false} CallGotChunk(c: Call, bytes: seq<Byte>, items: seq<Item>, now: seq<Byte>, handed: seq<Byte>,
                     later: seq<Item>, next: seq<Byte>, n: nat, r: int, handedNext: seq<Byte>)
      returns (more: seq<Byte>)
    requires Underway(c, bytes, items, now, handed) && !c.line && n == c.room - |bytes|
    requires r > 0 && Got(items, later, now, next, |bytes|, n, r, handed, handedNext)
    ensures |more| == |bytes| + r && Underway(c, more, later, next, handedNext)
  {
    hide Got, Midway, Holds, Ones;
    var chunk := GotChunk(items, later, now, next, |bytes|, n, r, handed, handedNext);
    more := bytes + chunk;
    HoldsLength(now, c.mine, bytes);
    MidwayChunk(c.was, bytes, items, c.room, n, chunk);
    HoldsMore(now, c.mine, bytes, next, chunk);
    assert c.handed + bytes + chunk == c.handed + more;
  }

  // The outcome of a call that stopped at the end of the stream or at a failure.
  lemma {:induction false} CallStopped(c: Call, bytes: seq<Byte>, items: seq<Item>, now: seq<Byte>, handed: seq<Byte>,
                    later: seq<Item>, n: nat, at: nat, into: seq<Byte>, r: int, handedNext: seq<Byte>)
    requires Underway(c, bytes, items, now, handed) && |bytes| < c.room
    requires r <= 0 && Got(items, later, into, into, at, n, r, handed, handedNext)
    ensures Finished(c, bytes, later, now, handedNext)
    ensures Scan(c.was, c.room, c.line).bytes == bytes
    ensures Scan(c.was, c.room, c.line).stop == if r == 0 then Ended else Failed
  {
    hide Midway, Holds, Ones, Scan;
    MidwayStop(c.was, bytes, items, c.room, c.room - |bytes|, c.line);
  }

  lemma {:induction false} CallFilled(c: Call, bytes: seq<Byte>, items: seq<Item>, now: seq<Byte>, handed: seq<Byte>)
    requires Underway(c, bytes, items, now, handed) && |bytes| == c.room
    ensures Finished(c, bytes, items, now, handed)
    ensures Scan(c.was, c.room, c.line).bytes == bytes && Scan(c.was, c.room, c.line).stop == Full
  {
    hide Midway, Holds, Ones, Scan;
    MidwayStop(c.was, bytes, items, c.room, 0, c.line);
  }

  lemma {:induction false} CallGotByte(c: Call, bytes: seq<Byte>, items: seq<Item>, now: seq<Byte>, handed: seq<Byte>,
                    later: seq<Item>, cell: seq<Byte>, b: seq<Byte>, next: seq<Byte>, handedNext: seq<Byte>)
    requires Underway(c, bytes, items, now, handed) && c.line && |bytes| < c.room && |bytes| < |now|
    requires |b| == 1 && Got(items, later, cell, b, 0, 1, 1, handed, handedNext)
    requires next == now[|bytes| := b[0]]
    ensures b[0] != NEWLINE ==> Underway(c, bytes + [b[0]], later, next, handedNext)
    ensures b[0] == NEWLINE ==> Finished(c, bytes + [b[0]], later, next, handedNext)
    ensures b[0] == NEWLINE ==> Scan(c.was, c.room, true) == Taken(bytes + [b[0]], Newline, |bytes| + 1)
  {
    hide Got, Midway, Holds, Ones, Scan;
    var chunk := GotChunk(items, later, cell, b, 0, 1, 1, handed, handedNext);
    assert b[0..1] == b;
    var x := b[0];
    assert chunk == [x];
    HoldsLength(now, c.mine, bytes);
    MidwayByte(c.was, bytes, items, c.room, c.room - |bytes|, x);
    HoldsMore(now, c.mine, bytes, next, [x]);
    assert c.handed + bytes + [x] == c.handed + (bytes + [x]);
  }

  lemma {:induction false} GotBounds(items: seq<Item>, later: seq<Item>, now: seq<Byte>, next: seq<Byte>, at: nat,
                                     n: nat, r: int, handed: seq<Byte>, handedNext: seq<Byte>)
    requires Got(items, later, now, next, at, n, r, handed, handedNext)
    ensures -1 <= r <= n && (r <= 0 ==> next == now)
  {
  }

  // Writing the terminator behind the bytes.
  lemma {:induction false} CallTerminated(c: Call, bytes: seq<Byte>, items: seq<Item>, now: seq<Byte>,
                                          handed: seq<Byte>, next: seq<Byte>)
    requires Finished(c, bytes, items, now, handed) && |bytes| < |now|
    requires next == now[|bytes| := '\0']
    ensures Finished(c, bytes + ['\0'], items, next, handed)
  {
    HoldsLength(now, c.mine, bytes);
    HoldsMore(now, c.mine, bytes, next, ['\0']);
  }

  class Rio {
    const buf: array<Byte>
    var cnt: int
    var ptr: nat
    var answers: seq<Answer>
    ghost var arrived: seq<Byte>   // every byte read() has returned
    ghost var handed: seq<Byte>    // every byte copied out of the buffer

    ghost predicate Valid()
      reads this, buf
    {
      && buf.Length == BUFFER_SIZE
      && (cnt > 0 ==> ptr + cnt <= BUFFER_SIZE)
      && handed + Window() == arrived
    }

    // The bytes read but not yet copied out.
    ghost function Window(): seq<Byte>
      reads this, buf
    {
      if cnt > 0 && ptr + cnt <= buf.Length then buf[ptr..ptr + cnt] else []
    }

    ghost function Items(): seq<Item>
      reads this, buf
    {
      Ones(Window()) + Flatten(answers)
    }

    constructor (descriptor: seq<Answer>)
      ensures Valid() && fresh(buf)
      ensures Items() == Flatten(descriptor) && arrived == [] && handed == []
    {
      buf := new Byte[BUFFER_SIZE];
      cnt, ptr := 0, 0;
      answers := descriptor;
      arrived, handed := [], [];
    }

    // read(rio_fd, rio_buf, sizeof rio_buf): a failure leaves the buffer alone.
    method ReadIntoBuffer() returns (got: int, interrupted: bool)
      requires Valid() && cnt <= 0
      modifies this`answers, this`arrived, buf
      ensures -1 <= got <= BUFFER_SIZE
      ensures |answers| <= |old(answers)|
      ensures got > 0 ==> Ones(buf[..got]) + Flatten(answers) == Flatten(old(answers))
      ensures got > 0 ==> arrived == old(arrived) + buf[..got]
      ensures got <= 0 ==> arrived == old(arrived)
      ensures got <= 0 && !interrupted ==> NothingLeft(Flatten(old(answers)), Flatten(answers), got)
      ensures interrupted ==> got == -1 && Flatten(answers) == Flatten(old(answers))
      ensures got == -1 ==> |answers| < |old(answers)|
    {
      hide Flatten, Ones;
      interrupted := false;
      if answers == [] {
        NoAnswers();
        return 0, false;
      }
      WholeArrival(answers);
      match answers[0] {
        case Data(bytes) =>
          got := if |bytes| <= BUFFER_SIZE then |bytes| else BUFFER_SIZE;
          forall i | 0 <= i < got { buf[i] := bytes[i]; }
          assert buf[..got] == bytes[..got];
          arrived := arrived + bytes[..got];
          if got < |bytes| {
            var rest: Chunk := bytes[got..];
            SplitArrival(answers, bytes, got, rest);
            answers := [Data(rest)] + answers[1..];
          } else {
            assert bytes[..got] == bytes;
            answers := answers[1..];
          }
        case Interrupted => got, interrupted, answers := -1, true, answers[1..];
        case Fault => got, answers := -1, answers[1..];
        case EndOfFile => got, answers := 0, answers[1..];
      }
    }

    lemma EmptyWindow()
      requires cnt <= 0
      ensures Window() == [] && Items() == Flatten(answers)
    {
      NoOnes(Window(), Flatten(answers));
    }

    lemma NewWindow()
      requires cnt > 0 && ptr == 0 && cnt <= buf.Length
      ensures Window() == buf[..cnt] && Items() == Ones(buf[..cnt]) + Flatten(answers)
    {
    }

    // The loop of rio_read: read until there is something to copy, the end of the file, or a failure.
    method Refill() returns (r: int)
      requires Valid()
      modifies this`cnt, this`ptr, this`answers, this`arrived, buf
      ensures Valid() && -1 <= r <= 1 && (r == 1 <==> cnt > 0)
      ensures if r == 1 then Items() == old(Items()) else NothingLeft(old(Items()), Items(), r)
    {
      hide Flatten, Ones, NothingLeft, Rio.Window, Rio.Items;
      while cnt <= 0
        invariant Valid() && Items() == old(Items())
        decreases |answers|, if cnt <= 0 then 1 else 0
      {
        EmptyWindow();
        var got, interrupted := ReadIntoBuffer();
        cnt := got;
        if cnt <= 0 {
          EmptyWindow();
        }
        if cnt < 0 {
          if !interrupted { return -1; }
        } else if cnt == 0 {
          return 0;
        } else {
          ptr := 0;
          NewWindow();
        }
      }
      r := 1;
    }

    // memcpy of the next `count` bytes of the window to usrbuf[at..].
    method CopyOut(usrbuf: array<Byte>, at: nat, count: nat, ghost n: nat)
      requires Valid() && usrbuf != buf
      requires 0 < count <= cnt && count <= n && at + n <= usrbuf.Length
      modifies this`cnt, this`ptr, this`handed, usrbuf
      ensures Valid()
      ensures Got(old(Items()), Items(), old(usrbuf[..]), usrbuf[..], at, n, count, old(handed), handed)
    {
      hide Flatten, Ones, Got;
      ghost var was, now, before := Window(), usrbuf[..], handed;
      assert was == buf[ptr..ptr + cnt];
      forall i | 0 <= i < count { usrbuf[at + i] := buf[ptr + i]; }
      assert usrbuf[at..at + count] == was[..count];
      ptr := ptr + count;
      cnt := cnt - count;
      handed := handed + was[..count];
      assert Window() == was[count..];
      assert handed + Window() == arrived by {
        assert was == was[..count] + was[count..];
      }
      GotWindow(was, Flatten(answers), now, usrbuf[..], at, n, count, before);
    }

    // rio_read
    method Read(usrbuf: array<Byte>, at: nat, n: nat) returns (r: int)
      requires Valid() && usrbuf != buf
      requires 0 < n && at + n <= usrbuf.Length
      modifies this`cnt, this`ptr, this`answers, this`arrived, this`handed, buf, usrbuf
      ensures Valid()
      ensures Got(old(Items()), Items(), old(usrbuf[..]), usrbuf[..], at, n, r, old(handed), handed)
    {
      hide Flatten, Ones, Rio.Window, Rio.Items;
      var filled := Refill();
      if filled < 1 { return filled; }
      hide Got;
      var count := n;
      if cnt < n { count := cnt; }
      CopyOut(usrbuf, at, count, n);
      return count;
    }

    // rio_readnb
    method ReadCount(usrbuf: array<Byte>, n: nat) returns (r: int)
      requires Valid() && usrbuf != buf && n <= usrbuf.Length
      modifies this`cnt, this`ptr, this`answers, this`arrived, this`handed, buf, usrbuf
      ensures Valid()
      ensures var t := Answered(old(Items()), Count(n));
        && r == (if t.stop == Failed then -1 else |t.bytes|)
        && Items() == old(Items())[t.used..] && handed == old(handed) + t.bytes
        && Holds(usrbuf[..], old(usrbuf[..]), t.bytes)
    {
      hide Flatten, Ones, Scan, Midway, Holds, Got, Underway, Rio.Window, Rio.Items, Rio.Valid;
      ghost var c := Call(Items(), usrbuf[..], handed, n, false);
      ghost var bytes: seq<Byte> := [];
      CallStarts(c);
      var left := n;
      while left > 0
        invariant Valid() && 0 <= left && left + |bytes| == n
        invariant Underway(c, bytes, Items(), usrbuf[..], handed)
        decreases left
      {
        ghost var items, now, before := Items(), usrbuf[..], handed;
        var got := Read(usrbuf, n - left, left);
        GotBounds(items, Items(), now, usrbuf[..], n - left, left, got, before, handed);
        if got <= 0 {
          CallStopped(c, bytes, items, now, before, Items(), left, n - left, now, got, handed);
          return if got < 0 then -1 else n - left;
        }
        bytes := CallGotChunk(c, bytes, items, now, before, Items(), usrbuf[..], left, got, handed);
        left := left - got;
      }
      CallFilled(c, bytes, Items(), usrbuf[..], handed);
      r := n - left;
    }

    // rio_readlineb
    method ReadLine(usrbuf: array<Byte>, maxlen: nat) returns (r: int)
      requires Valid() && usrbuf != buf && maxlen <= usrbuf.Length && 0 < usrbuf.Length
      modifies this`cnt, this`ptr, this`answers, this`arrived, this`handed, buf, usrbuf
      ensures Valid()
      ensures var t := Answered(old(Items()), Line(maxlen));
        && r == (if t.stop == Failed then -1 else |t.bytes|)
        && Items() == old(Items())[t.used..] && handed == old(handed) + t.bytes
        && Holds(usrbuf[..], old(usrbuf[..]), Content(t))
    {
      hide Flatten, Ones, Scan, Midway, Holds, Got, Underway, Rio.Window, Rio.Items, Rio.Valid;
      ghost var call := Call(Items(), usrbuf[..], handed, if maxlen == 0 then 0 else maxlen - 1, true);
      ghost var bytes: seq<Byte> := [];
      CallStarts(call);
      ghost var stopped := false;
      var n, at := 1, 0;
      var c := new Byte[1];
      while n < maxlen
        invariant Valid() && 1 <= n && (n <= maxlen || n == 1) && at == n - 1 == |bytes|
        invariant !stopped && Underway(call, bytes, Items(), usrbuf[..], handed)
        decreases maxlen - n
      {
        ghost var items, now, cell, before := Items(), usrbuf[..], c[..], handed;
        var rc := Read(c, 0, 1);
        GotBounds(items, Items(), cell, c[..], 0, 1, rc, before, handed);
        if rc == 1 {
          usrbuf[at] := c[0];
          at := at + 1;
          CallGotByte(call, bytes, items, now, before, Items(), cell, c[..], usrbuf[..], handed);
          bytes := bytes + [c[0]];
          n := n + 1;
          if c[0] == NEWLINE {
            stopped := true;
            break;
          }
        } else {
          CallStopped(call, bytes, items, now, before, Items(), 1, 0, cell, rc, handed);
          if rc != 0 { return -1; }
          if n == 1 { return 0; }
          stopped := true;
          break;
        }
      }
      if !stopped {
        CallFilled(call, bytes, Items(), usrbuf[..], handed);
      }
      ghost var now := usrbuf[..];
      usrbuf[at] := '\0';
      CallTerminated(call, bytes, Items(), now, handed, usrbuf[..]);
      r := n - 1;
    }

    // Any caller: a mixture of lines and counted reads, with failures passed over.
    method Serve(usrbuf: array<Byte>, requests: seq<Request>)
      requires Valid() && usrbuf != buf && 0 < usrbuf.Length
      requires forall i :: 0 <= i < |requests| ==> Size(requests[i]) <= usrbuf.Length
      modifies this`cnt, this`ptr, this`answers, this`arrived, this`handed, buf, usrbuf
      ensures Valid()
      ensures var (bytes, rest) := Served(old(Items()), requests);
        handed == old(handed) + bytes && Items() == rest
    {
      hide Flatten, Ones, Scan, Holds, Answered, Content, Served, Rio.Window, Rio.Items, Rio.Valid;
      ServedUnfold(Items(), requests);
      if requests == [] {
        assert handed + [] == handed;
        return;
      }
      match requests[0] {
        case Line(maxlen) => var _ := ReadLine(usrbuf, maxlen);
        case Count(n) => var _ := ReadCount(usrbuf, n);
      }
      Serve(usrbuf, requests[1..]);
    }
  }

  // A byte, a failure, a byte: the first call reports the failure alone, the second goes on behind it.
  method FailureLosesByte() returns (first: int, second: int, got: Byte)
    ensures first == -1 && second == 1 && got == 'b'
  {
    hide *;
    ThreeAnswers();
    var io := new Rio([Data(['a']), Fault, Data(['b'])]);
    var usrbuf := new Byte[2];
    ghost var was := usrbuf[..];
    first := io.ReadCount(usrbuf, 2);
    was := usrbuf[..];
    second := io.ReadCount(usrbuf, 1);
    HoldsFirst(usrbuf[..], was, 'b');
    got := usrbuf[0];
  }

  lemma HoldsFirst(now: seq<Byte>, was: seq<Byte>, b: Byte)
    requires Holds(now, was, [b])
    ensures now != [] && now[0] == b
  {
  }

  lemma ThreeAnswers()
    ensures Flatten([Data(['a']), Fault, Data(['b'])]) == [One('a'), Bad, One('b')]
    ensures Answered([One('a'), Bad, One('b')], Count(2)) == Taken(['a'], Failed, 2)
    ensures [One('a'), Bad, One('b')][2..] == [One('b')]
    ensures Answered([One('b')], Count(1)) == Taken(['b'], Full, 1)
  {
    OneAnswer('b');
    assert [Data(['a']), Fault, Data(['b'])][1..] == [Fault, Data(['b'])];
    assert [Fault, Data(['b'])][1..] == [Data(['b'])];
    assert Flatten([Fault, Data(['b'])]) == [Bad, One('b')];
    assert [One('a'), Bad, One('b')][1..] == [Bad, One('b')];
  }

  lemma OneAnswer(b: Byte)
    ensures Flatten([Data([b])]) == [One(b)] && Scan([One(b)], 1, false) == Taken([b], Full, 1)
  {
    assert [Data([b])][1..] == [];
  }
}
