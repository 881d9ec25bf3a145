/** What the allocator keeps in memory: boundary tags, chunk walls and free-list links. */
module HeapMemory {
  import opened Words
  import opened HeapShape

  // -------------------------------------------------------------------- tags

  ghost predicate TagOk(m: Memory, blk: Blocks, live: set<int>, p: int) {
    p in blk &&
    var h, f := p - 4, p + blk[p].size - 8;
    h in m && f in m && m[h] == m[f] == Pack(blk[p].size, p in live)
  }

  ghost predicate TagsBut(m: Memory, blk: Blocks, live: set<int>, but: set<int>) {
    forall p {:trigger TagOk(m, blk, live, p)} :: p in blk && p !in but ==> TagOk(m, blk, live, p)
  }

  ghost predicate Tags(m: Memory, blk: Blocks, live: set<int>) {
    TagsBut(m, blk, live, {})
  }

  ghost predicate WallOk(m: Memory, chunks: Chunks, c: int) {
    c in chunks &&
    var a, b, t := c + 4, c + 8, c + chunks[c] - 4;
    a in m && b in m && t in m && m[a] == m[b] == Pack(8, true) && m[t] == Pack(0, true)
  }

  ghost predicate Walls(m: Memory, chunks: Chunks) {
    forall c {:trigger WallOk(m, chunks, c)} :: c in chunks ==> WallOk(m, chunks, c)
  }

  ghost function PutTags(m: Memory, p: int, size: int, alloc: bool): Memory
    requires 0 <= size < INT_LIMIT - 1
  {
    m[p - 4 := Pack(size, alloc)][p + size - 8 := Pack(size, alloc)]
  }

  lemma PutTagsKeepsTags(m: Memory, blk: Blocks, chunks: Chunks, live: set<int>, but: set<int>, p: int)
    requires Shape(blk, chunks) && p in blk && 0 <= blk[p].size < INT_LIMIT - 1
    requires TagsBut(m, blk, live, but)
    ensures TagsBut(PutTags(m, p, blk[p].size, p in live), blk, live, but - {p})
  {
    var out := PutTags(m, p, blk[p].size, p in live);
    assert BlockOk(blk, chunks, p);
    forall x | x in blk && x !in but - {p} ensures TagOk(out, blk, live, x) {
      assert BlockOk(blk, chunks, x);
      assert Gap(blk, x, p) && Gap(blk, p, x);
      assert x != p ==> TagOk(m, blk, live, x);
    }
  }

  lemma PutTagsKeepsWalls(m: Memory, blk: Blocks, chunks: Chunks, p: int, alloc: bool)
    requires Shape(blk, chunks) && p in blk && 0 <= blk[p].size < INT_LIMIT - 1
    requires Walls(m, chunks)
    ensures Walls(PutTags(m, p, blk[p].size, alloc), chunks)
  {
    var out := PutTags(m, p, blk[p].size, alloc);
    assert BlockOk(blk, chunks, p);
    var h := blk[p].home;
    forall c | c in chunks ensures WallOk(out, chunks, c) {
      assert WallOk(m, chunks, c);
      assert ChunkGap(chunks, c, h) && ChunkGap(chunks, h, c);
      assert ChunkOk(c, chunks[c]) && ChunkOk(h, chunks[h]);
    }
  }

  // ------------------------------------------------------------------- links

  ghost function Prev(fl: seq<int>, i: int): int
    requires 0 <= i < |fl|
  {
    if i == 0 then 0 else fl[i - 1]
  }

  ghost function Next(fl: seq<int>, i: int): int
    requires 0 <= i < |fl|
  {
    if i + 1 == |fl| then 0 else fl[i + 1]
  }

  ghost predicate CellsIn(m: Memory, x: int) {
    x in m && x + 4 in m && x + 8 in m && x + 12 in m
  }

  // The link cells of node fl[i]: prev at bp, next at bp + 8.
  ghost predicate NodeOk(m: Memory, fl: seq<int>, i: int) {
    0 <= i < |fl| && CellsIn(m, fl[i])
    && PtrAt(m, fl[i]) == Prev(fl, i) && PtrAt(m, fl[i] + 8) == Next(fl, i)
  }

  ghost predicate NodeGap(fl: seq<int>, i: int, j: int) {
    0 <= i < |fl| && 0 <= j < |fl| && i != j ==> fl[i] + 16 <= fl[j] || fl[j] + 16 <= fl[i]
  }

  ghost predicate Links(m: Memory, fl: seq<int>, head: int) {
    && head == (if fl == [] then 0 else fl[0])
    && (forall i {:trigger NodeOk(m, fl, i)} :: 0 <= i < |fl| ==> NodeOk(m, fl, i))
    && (forall i, j :: NodeGap(fl, i, j))
    && (forall i :: 0 <= i < |fl| ==> 0 < fl[i] < ADDRESS_LIMIT)
  }

  ghost predicate InNode(fl: seq<int>, a: int) {
    exists x :: x in fl && x <= a < x + 16
  }

  // out differs from m at most in the link cells of the nodes of fl.
  ghost predicate OnlyNodes(m: Memory, out: Memory, fl: seq<int>) {
    && m.Keys == out.Keys
    && forall a :: a in m && !InNode(fl, a) ==> out[a] == m[a]
  }

  function Push(m: Memory, head: int, b: int): Memory
    requires 0 <= head < ADDRESS_LIMIT && 0 <= b < ADDRESS_LIMIT
  {
    if head == 0 then PutPtr(PutPtr(m, b, 0), b + 8, 0)
    else PutPtr(PutPtr(PutPtr(m, b + 8, head), b, 0), head, b)
  }

  ghost predicate Away(fl: seq<int>, b: int) {
    forall i :: 0 <= i < |fl| ==> fl[i] + 16 <= b || b + 16 <= fl[i]
  }

  lemma PushEmptyLinks(m: Memory, m1: Memory, out: Memory, b: int)
    requires CellsIn(m, b) && 0 < b < ADDRESS_LIMIT
    requires Wrote(m, m1, b, 0) && Wrote(m1, out, b + 8, 0)
    ensures Links(out, [b], b) && OnlyNodes(m, out, [b])
  {
    assert NodeOk(out, [b], 0);
    assert b in [b];
  }

  lemma PushOntoNodes(m: Memory, m1: Memory, m2: Memory, out: Memory, fl: seq<int>, b: int)
    requires fl != [] && Links(m, fl, fl[0]) && Away(fl, b)
    requires CellsIn(m, b)
    requires Wrote(m, m1, b + 8, fl[0]) && Wrote(m1, m2, b, 0) && Wrote(m2, out, fl[0], b)
    ensures forall i {:trigger NodeOk(out, [b] + fl, i)} :: 0 <= i <= |fl| ==> NodeOk(out, [b] + fl, i)
  {
    var list := [b] + fl;
    assert NodeOk(m, fl, 0);
    forall i | 0 <= i < |list| ensures NodeOk(out, list, i) {
      if i > 0 {
        assert NodeOk(m, fl, i - 1);
        assert NodeGap(fl, 0, i - 1);
      }
    }
  }

  lemma PushOntoLinks(m: Memory, m1: Memory, m2: Memory, out: Memory, fl: seq<int>, b: int)
    requires fl != [] && Links(m, fl, fl[0]) && Away(fl, b)
    requires CellsIn(m, b) && 0 < b < ADDRESS_LIMIT
    requires Wrote(m, m1, b + 8, fl[0]) && Wrote(m1, m2, b, 0) && Wrote(m2, out, fl[0], b)
    ensures Links(out, [b] + fl, b) && OnlyNodes(m, out, [b] + fl)
  {
    var list := [b] + fl;
    PushOntoNodes(m, m1, m2, out, fl, b);
    forall i, j ensures NodeGap(list, i, j) {
      assert NodeGap(fl, i - 1, j - 1);
    }
    assert list[0] == b && list[1] == fl[0];
    assert b in list && fl[0] in list;
  }

  lemma PushLinks(m: Memory, fl: seq<int>, head: int, b: int)
    requires Links(m, fl, head) && Away(fl, b)
    requires CellsIn(m, b) && 0 < b < ADDRESS_LIMIT
    ensures Links(Push(m, head, b), [b] + fl, b)
    ensures OnlyNodes(m, Push(m, head, b), [b] + fl)
  {
    if head == 0 {
      PutPtrWrites(m, b, 0);
      PutPtrWrites(PutPtr(m, b, 0), b + 8, 0);
      PushEmptyLinks(m, PutPtr(m, b, 0), Push(m, head, b), b);
      assert [b] + fl == [b];
    } else {
      assert NodeOk(m, fl, 0);
      var m1 := PutPtr(m, b + 8, head);
      var m2 := PutPtr(m1, b, 0);
      PutPtrWrites(m, b + 8, head);
      PutPtrWrites(m1, b, 0);
      PutPtrWrites(m2, head, b);
      PushOntoLinks(m, m1, m2, Push(m, head, b), fl, b);
    }
  }

  ghost function Without(fl: seq<int>, i: int): seq<int>
    requires 0 <= i < |fl|
  {
    fl[..i] + fl[i + 1..]
  }

  // Both neighbours named by the cells of b are null or have cells of their own.
  ghost predicate UnlinkReady(m: Memory, b: int) {
    CellsIn(m, b) &&
    var prev, next := PtrAt(m, b), PtrAt(m, b + 8);
    && 0 <= prev < ADDRESS_LIMIT && 0 <= next < ADDRESS_LIMIT
    && (prev != 0 ==> CellsIn(m, prev)) && (next != 0 ==> CellsIn(m, next))
    && prev != b && next != b && (next != 0 ==> next + 16 <= b || b + 16 <= next)
  }

  // free_list_ptr after b has left the list.
  function HeadAfter(m: Memory, head: int, b: int): int
    requires b in m && b + 4 in m && b + 8 in m && b + 12 in m
  {
    if b != head then head else if PtrAt(m, b) != 0 then PtrAt(m, b) else PtrAt(m, b + 8)
  }

  function Unlink(m: Memory, b: int): Memory
    requires b in m && b + 4 in m && b + 8 in m && b + 12 in m
    requires 0 <= PtrAt(m, b) < ADDRESS_LIMIT && 0 <= PtrAt(m, b + 8) < ADDRESS_LIMIT
  {
    var prev, next := PtrAt(m, b), PtrAt(m, b + 8);
    var m1 := if next != 0 then PutPtr(m, next, prev) else m;
    if prev != 0 then PutPtr(m1, prev + 8, next) else m1
  }

  // Any other node k of the list keeps its cells, but for the ones that led to node i.
  lemma UnlinkNode(m: Memory, fl: seq<int>, head: int, i: int, m1: Memory, out: Memory, k: int)
    requires Links(m, fl, head) && 0 <= i < |fl| && 0 <= k < |fl| && k != i
    requires if i + 1 < |fl| then Wrote(m, m1, fl[i + 1], Prev(fl, i)) else m1 == m
    requires if 0 < i then Wrote(m1, out, fl[i - 1] + 8, Next(fl, i)) else out == m1
    ensures CellsIn(out, fl[k])
    ensures PtrAt(out, fl[k]) == if k == i + 1 then Prev(fl, i) else Prev(fl, k)
    ensures PtrAt(out, fl[k] + 8) == if k + 1 == i then Next(fl, i) else Next(fl, k)
  {
    assert NodeOk(m, fl, k);
    assert NodeGap(fl, k, i - 1) && NodeGap(fl, k, i + 1);
    hide Wrote, PtrAt, Links;
    if i + 1 < |fl| {
      WroteKeeps(m, m1, fl[i + 1], Prev(fl, i), fl[k]);
      WroteKeeps(m, m1, fl[i + 1], Prev(fl, i), fl[k] + 8);
    }
    if 0 < i {
      WroteKeeps(m1, out, fl[i - 1] + 8, Next(fl, i), fl[k]);
      WroteKeeps(m1, out, fl[i - 1] + 8, Next(fl, i), fl[k] + 8);
    }
  }

  lemma UnlinkNodes(m: Memory, fl: seq<int>, head: int, i: int, m1: Memory, out: Memory)
    requires Links(m, fl, head) && 0 <= i < |fl|
    requires if i + 1 < |fl| then Wrote(m, m1, fl[i + 1], Prev(fl, i)) else m1 == m
    requires if 0 < i then Wrote(m1, out, fl[i - 1] + 8, Next(fl, i)) else out == m1
    ensures forall j {:trigger NodeOk(out, Without(fl, i), j)} ::
              0 <= j < |fl| - 1 ==> NodeOk(out, Without(fl, i), j)
  {
    hide Wrote, PtrAt, Links;
    var list := Without(fl, i);
    forall j | 0 <= j < |list| ensures NodeOk(out, list, j) {
      UnlinkNode(m, fl, head, i, m1, out, if j < i then j else j + 1);
    }
  }

  ghost function HeadWithout(fl: seq<int>, i: int): int
    requires 0 <= i < |fl|
  {
    if i == 0 then Next(fl, i) else fl[0]
  }

  lemma UnlinkWrites(m: Memory, fl: seq<int>, head: int, i: int, m1: Memory, out: Memory)
    requires Links(m, fl, head) && 0 <= i < |fl|
    requires if i + 1 < |fl| then Wrote(m, m1, fl[i + 1], Prev(fl, i)) else m1 == m
    requires if 0 < i then Wrote(m1, out, fl[i - 1] + 8, Next(fl, i)) else out == m1
    ensures Links(out, Without(fl, i), HeadWithout(fl, i))
    ensures OnlyNodes(m, out, fl)
  {
    var list := Without(fl, i);
    UnlinkNodes(m, fl, head, i, m1, out);
    forall j, k ensures NodeGap(list, j, k) {
      assert NodeGap(fl, if j < i then j else j + 1, if k < i then k else k + 1);
    }
    assert i > 0 ==> fl[i - 1] in fl;
    assert i + 1 < |fl| ==> fl[i + 1] in fl;
  }

  lemma UnlinkSteps(m: Memory, fl: seq<int>, head: int, i: int) returns (m1: Memory)
    requires Links(m, fl, head) && 0 <= i < |fl|
    ensures CellsIn(m, fl[i]) && PtrAt(m, fl[i]) == Prev(fl, i) && PtrAt(m, fl[i] + 8) == Next(fl, i)
    ensures if i + 1 < |fl| then Wrote(m, m1, fl[i + 1], Prev(fl, i)) else m1 == m
    ensures if 0 < i then Wrote(m1, Unlink(m, fl[i]), fl[i - 1] + 8, Next(fl, i)) else Unlink(m, fl[i]) == m1
  {
    hide PtrAt, PutPtr;
    assert NodeOk(m, fl, i);
    m1 := m;
    if i + 1 < |fl| {
      assert NodeOk(m, fl, i + 1);
      PutPtrWrites(m, fl[i + 1], Prev(fl, i));
      m1 := PutPtr(m, fl[i + 1], Prev(fl, i));
    }
    if 0 < i {
      assert NodeOk(m, fl, i - 1);
      PutPtrWrites(m1, fl[i - 1] + 8, Next(fl, i));
    }
  }

  lemma UnlinkLinks(m: Memory, fl: seq<int>, head: int, i: int)
    requires Links(m, fl, head) && 0 <= i < |fl|
    ensures CellsIn(m, fl[i]) && PtrAt(m, fl[i]) == Prev(fl, i) && PtrAt(m, fl[i] + 8) == Next(fl, i)
    ensures fl[i] == head <==> i == 0
    ensures Links(Unlink(m, fl[i]), Without(fl, i), HeadWithout(fl, i))
    ensures OnlyNodes(m, Unlink(m, fl[i]), fl)
  {
    var m1 := UnlinkSteps(m, fl, head, i);
    UnlinkWrites(m, fl, head, i, m1, Unlink(m, fl[i]));
    assert NodeGap(fl, 0, i);
  }

  lemma UnlinkCells(m: Memory, fl: seq<int>, head: int, i: int)
    requires Links(m, fl, head) && 0 <= i < |fl|
    ensures UnlinkReady(m, fl[i]) && HeadAfter(m, head, fl[i]) == HeadWithout(fl, i)
  {
    assert NodeOk(m, fl, i);
    assert i > 0 ==> NodeOk(m, fl, i - 1);
    assert i + 1 < |fl| ==> NodeOk(m, fl, i + 1);
    assert NodeGap(fl, 0, i) && NodeGap(fl, i - 1, i) && NodeGap(fl, i + 1, i);
  }

  // ------------------------------------------------- tags against link cells

  ghost predicate Nodes(fl: seq<int>, blk: Blocks) {
    forall x :: x in fl ==> x in blk
  }

  lemma TagNotInNode(fl: seq<int>, blk: Blocks, chunks: Chunks, p: int)
    requires Shape(blk, chunks) && Nodes(fl, blk) && p in blk
    ensures !InNode(fl, p - 4) && !InNode(fl, p + blk[p].size - 8)
  {
    assert BlockOk(blk, chunks, p);
    forall x | x in fl ensures !(x <= p - 4 < x + 16) && !(x <= p + blk[p].size - 8 < x + 16) {
      assert BlockOk(blk, chunks, x) && Gap(blk, x, p) && Gap(blk, p, x);
    }
  }

  lemma WallNotInNode(fl: seq<int>, blk: Blocks, chunks: Chunks, c: int)
    requires Shape(blk, chunks) && Nodes(fl, blk) && c in chunks
    ensures !InNode(fl, c + 4) && !InNode(fl, c + 8) && !InNode(fl, c + chunks[c] - 4)
  {
    assert ChunkOk(c, chunks[c]);
    forall x | x in fl
      ensures !(x <= c + 4 < x + 16) && !(x <= c + 8 < x + 16) && !(x <= c + chunks[c] - 4 < x + 16)
    {
      var h := blk[x].home;
      assert BlockOk(blk, chunks, x) && ChunkGap(chunks, c, h) && ChunkGap(chunks, h, c);
    }
  }

  lemma NodesKeepTags(m: Memory, out: Memory, fl: seq<int>, blk: Blocks, chunks: Chunks, live: set<int>, but: set<int>)
    requires Shape(blk, chunks) && Nodes(fl, blk) && OnlyNodes(m, out, fl)
    requires TagsBut(m, blk, live, but) && Walls(m, chunks)
    ensures TagsBut(out, blk, live, but) && Walls(out, chunks)
  {
    forall p | p in blk && p !in but ensures TagOk(out, blk, live, p) {
      assert TagOk(m, blk, live, p);
      TagNotInNode(fl, blk, chunks, p);
    }
    forall c | c in chunks ensures WallOk(out, chunks, c) {
      assert WallOk(m, chunks, c);
      WallNotInNode(fl, blk, chunks, c);
    }
  }

  lemma PutTagsKeepsLinks(m: Memory, fl: seq<int>, head: int, blk: Blocks, chunks: Chunks, p: int, alloc: bool)
    requires Shape(blk, chunks) && p in blk && 0 <= blk[p].size < INT_LIMIT - 1
    requires Nodes(fl, blk) && Links(m, fl, head)
    ensures Links(PutTags(m, p, blk[p].size, alloc), fl, head)
  {
    var out := PutTags(m, p, blk[p].size, alloc);
    TagNotInNode(fl, blk, chunks, p);
    forall i | 0 <= i < |fl| ensures NodeOk(out, fl, i) {
      assert NodeOk(m, fl, i);
      assert fl[i] in fl;
    }
  }

  // ---------------------------------------------------------------- payloads

  ghost predicate InPayload(blk: Blocks, live: set<int>, a: int) {
    exists q :: q in live && q in blk && q <= a < q + blk[q].size - 8
  }

  // Every payload word of the live blocks has the same value in m and out.
  ghost predicate Kept(m: Memory, out: Memory, blk: Blocks, live: set<int>) {
    forall a :: a in m && InPayload(blk, live, a) ==> a in out && out[a] == m[a]
  }

  lemma PutTagsKeepsPayloads(m: Memory, blk: Blocks, chunks: Chunks, live: set<int>, p: int, alloc: bool)
    requires Shape(blk, chunks) && p in blk && 0 <= blk[p].size < INT_LIMIT - 1
    ensures Kept(m, PutTags(m, p, blk[p].size, alloc), blk, live)
  {
    assert BlockOk(blk, chunks, p);
    forall q | q in live && q in blk
      ensures !(q <= p - 4 < q + blk[q].size - 8)
      ensures !(q <= p + blk[p].size - 8 < q + blk[q].size - 8)
    {
      assert BlockOk(blk, chunks, q) && Gap(blk, q, p) && Gap(blk, p, q);
    }
  }

  lemma NodesKeepPayloads(m: Memory, out: Memory, fl: seq<int>, blk: Blocks, chunks: Chunks, live: set<int>)
    requires Shape(blk, chunks) && Nodes(fl, blk) && OnlyNodes(m, out, fl)
    requires forall x :: x in fl ==> x !in live
    ensures Kept(m, out, blk, live)
  {
    forall a | a in m && InPayload(blk, live, a) ensures !InNode(fl, a) {
      var q :| q in live && q in blk && q <= a < q + blk[q].size - 8;
      forall x | x in fl ensures !(x <= a < x + 16) {
        assert BlockOk(blk, chunks, x) && Gap(blk, x, q) && Gap(blk, q, x);
      }
    }
  }
}
