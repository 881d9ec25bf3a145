/** The whole-heap invariant, and what each allocator step does to it. */
module HeapState {
  import opened Words
  import opened HeapShape
  import opened HeapMemory

  ghost predicate ChunkWord(chunks: Chunks, c: int, a: int) {
    c in chunks && c <= a < c + chunks[c] && a % 4 == 0
  }

  // Every word of every chunk is mapped memory.
  ghost predicate Backed(m: Memory, chunks: Chunks) {
    forall c, a {:trigger ChunkWord(chunks, c, a)} :: ChunkWord(chunks, c, a) ==> a in m
  }

  ghost predicate FreeExactly(fl: seq<int>, blk: Blocks, live: set<int>) {
    forall x :: x in fl <==> x in blk && x !in live
  }

  ghost predicate HeapOk(m: Memory, blk: Blocks, chunks: Chunks, live: set<int>, fl: seq<int>, head: int) {
    && Shape(blk, chunks)
    && live <= blk.Keys
    && Tags(m, blk, live)
    && Walls(m, chunks)
    && Links(m, fl, head)
    && FreeExactly(fl, blk, live)
    && Backed(m, chunks)
  }

  // The same in the middle of an operation: the tags of `but` may be stale and
  // the list may hold a block that is no longer free, or miss one that is.
  ghost predicate MidOk(m: Memory, blk: Blocks, chunks: Chunks, live: set<int>, but: set<int>,
                        fl: seq<int>, head: int) {
    && Shape(blk, chunks)
    && live <= blk.Keys
    && TagsBut(m, blk, live, but)
    && Walls(m, chunks)
    && Links(m, fl, head)
    && Nodes(fl, blk)
    && Backed(m, chunks)
  }

  lemma MidShape(m: Memory, blk: Blocks, chunks: Chunks, live: set<int>, but: set<int>, fl: seq<int>, head: int)
    requires MidOk(m, blk, chunks, live, but, fl, head)
    ensures Shape(blk, chunks)
  {
  }

  lemma MidIsHeap(m: Memory, blk: Blocks, chunks: Chunks, live: set<int>, fl: seq<int>, head: int)
    requires MidOk(m, blk, chunks, live, {}, fl, head) && FreeExactly(fl, blk, live)
    ensures HeapOk(m, blk, chunks, live, fl, head)
  {
  }

  lemma AllListed(fl: seq<int>, blk: Blocks, live: set<int>, p: int)
    requires p in blk && p !in live && forall x :: x in fl <==> x in blk && x !in live && x != p
    ensures FreeExactly([p] + fl, blk, live)
  {
  }

  lemma CellsAligned(p: int, size: int)
    requires p % 16 == 0 && size % 16 == 0
    ensures p % 4 == 0 && (p - 4) % 4 == 0 && (p + 4) % 4 == 0 && (p + 8) % 4 == 0 && (p + 12) % 4 == 0
    ensures (p - 12) % 4 == 0 && (p + size - 8) % 4 == 0
  {
    var x, y := p / 16, size / 16;
    FourApart(p, 4 * x);
    FourApart(p + size - 8, 4 * (x + y) - 2);
  }

  lemma FourApart(a: int, k: int)
    requires a == 4 * k
    ensures a % 4 == 0 && (a - 4) % 4 == 0 && (a + 4) % 4 == 0 && (a + 8) % 4 == 0 && (a + 12) % 4 == 0
    ensures (a - 12) % 4 == 0
  {
  }

  lemma BlockWords(m: Memory, blk: Blocks, chunks: Chunks, p: int)
    requires Shape(blk, chunks) && Backed(m, chunks) && p in blk
    ensures CellsIn(m, p) && p - 4 in m && p + blk[p].size - 8 in m && 16 < p && p + blk[p].size <= ADDRESS_LIMIT
    ensures 32 <= blk[p].size < INT_LIMIT - 1 && blk[p].size % 16 == 0 && p % 16 == 0
  {
    assert BlockOk(blk, chunks, p);
    var c, size := blk[p].home, blk[p].size;
    assert ChunkOk(c, chunks[c]);
    CellsAligned(p, size);
    assert ChunkWord(chunks, c, p - 4) && ChunkWord(chunks, c, p + blk[p].size - 8);
    assert ChunkWord(chunks, c, p) && ChunkWord(chunks, c, p + 4);
    assert ChunkWord(chunks, c, p + 8) && ChunkWord(chunks, c, p + 12);
  }

  lemma KeptTrans(m0: Memory, m1: Memory, m2: Memory, blk: Blocks, live: set<int>)
    requires Kept(m0, m1, blk, live) && Kept(m1, m2, blk, live)
    ensures Kept(m0, m2, blk, live)
  {
  }

  // ------------------------------------------------------------ set_allocated

  // The free block p gives its first n bytes to the client; n is the aligned request.
  ghost function Carve(blk: Blocks, p: int, n: int): Blocks
    requires p in blk
  {
    if blk[p].size - n > 16 then Split(blk, p, n) else blk
  }

  ghost function CarveList(blk: Blocks, fl: seq<int>, i: int, n: int): seq<int>
    requires 0 <= i < |fl| && fl[i] in blk
  {
    if blk[fl[i]].size - n > 16 then [fl[i] + n] + Without(fl, i) else Without(fl, i)
  }

  ghost predicate CanCarve(blk: Blocks, chunks: Chunks, live: set<int>, p: int, n: int) {
    Shape(blk, chunks) && p in blk && p !in live && live <= blk.Keys && 32 <= n <= blk[p].size && n % 16 == 0
  }

  lemma CarveShape(blk: Blocks, chunks: Chunks, live: set<int>, p: int, n: int)
    requires CanCarve(blk, chunks, live, p, n)
    ensures Shape(Carve(blk, p, n), chunks)
    ensures blk[p].size - n > 16 ==> p + n !in blk && blk[p].size - n >= 32
  {
    assert BlockOk(blk, chunks, p);
    if blk[p].size - n > 16 {
      AddAligned(blk[p].size, -n);
      SplitShape(blk, chunks, p, n);
    }
  }

  lemma CarveStart(m: Memory, blk: Blocks, chunks: Chunks, live: set<int>, fl: seq<int>, head: int, p: int, n: int)
    requires HeapOk(m, blk, chunks, live, fl, head) && CanCarve(blk, chunks, live, p, n)
    ensures MidOk(m, Carve(blk, p, n), chunks, live + {p},
                  if blk[p].size - n > 16 then {p, p + n} else {p}, fl, head)
  {
    CarveShape(blk, chunks, live, p, n);
    var out, but := Carve(blk, p, n), if blk[p].size - n > 16 then {p, p + n} else {p};
    forall x | x in out && x !in but ensures TagOk(m, out, live + {p}, x) {
      assert TagOk(m, blk, live, x);
    }
  }

  lemma WriteTagsStep(m: Memory, blk: Blocks, chunks: Chunks, live: set<int>, but: set<int>,
                      fl: seq<int>, head: int, p: int, safe: set<int>)
    requires MidOk(m, blk, chunks, live, but, fl, head) && p in blk
    ensures 0 <= blk[p].size < INT_LIMIT - 1
    ensures var out := PutTags(m, p, blk[p].size, p in live);
            MidOk(out, blk, chunks, live, but - {p}, fl, head) && Kept(m, out, blk, safe) && out.Keys == m.Keys
  {
    BlockWords(m, blk, chunks, p);
    PutTagsKeepsTags(m, blk, chunks, live, but, p);
    PutTagsKeepsWalls(m, blk, chunks, p, p in live);
    PutTagsKeepsLinks(m, fl, head, blk, chunks, p, p in live);
    PutTagsKeepsPayloads(m, blk, chunks, safe, p, p in live);
  }

  lemma NodesStep(m: Memory, out: Memory, blk: Blocks, chunks: Chunks, live: set<int>, but: set<int>,
                  fl: seq<int>, head: int, fl': seq<int>, head': int, nodes: seq<int>, safe: set<int>)
    requires MidOk(m, blk, chunks, live, but, fl, head)
    requires OnlyNodes(m, out, nodes) && Nodes(nodes, blk) && Links(out, fl', head') && Nodes(fl', blk)
    requires forall x :: x in nodes ==> x !in safe
    ensures MidOk(out, blk, chunks, live, but, fl', head') && Kept(m, out, blk, safe)
  {
    NodesKeepTags(m, out, nodes, blk, chunks, live, but);
    NodesKeepPayloads(m, out, nodes, blk, chunks, safe);
  }

  lemma AwayFromBlock(blk: Blocks, chunks: Chunks, fl: seq<int>, p: int)
    requires Shape(blk, chunks) && Nodes(fl, blk) && p in blk && p !in fl
    ensures Away(fl, p)
  {
    assert BlockOk(blk, chunks, p);
    forall i | 0 <= i < |fl| ensures fl[i] + 16 <= p || p + 16 <= fl[i] {
      assert fl[i] in fl;
      assert BlockOk(blk, chunks, fl[i]) && Gap(blk, fl[i], p) && Gap(blk, p, fl[i]);
    }
  }

  lemma WithoutMembers(fl: seq<int>, i: int)
    requires 0 <= i < |fl| && forall j, k :: NodeGap(fl, j, k)
    ensures forall x :: x in Without(fl, i) <==> x in fl && x != fl[i]
  {
    var out := Without(fl, i);
    forall x | x in fl && x != fl[i] ensures x in out {
      var t :| 0 <= t < |fl| && fl[t] == x;
      assert out[if t < i then t else t - 1] == x;
    }
    forall x | x in out ensures x in fl && x != fl[i] {
      var t :| 0 <= t < |out| && out[t] == x;
      var u := if t < i then t else t + 1;
      assert fl[u] == x && NodeGap(fl, u, i);
    }
  }

  lemma PushStart(m: Memory, blk: Blocks, chunks: Chunks, live: set<int>, but: set<int>,
                  fl: seq<int>, head: int, b: int)
    requires MidOk(m, blk, chunks, live, but, fl, head) && b in blk && b !in fl
    ensures CellsIn(m, b) && 0 < b < ADDRESS_LIMIT && Away(fl, b) && Links(m, fl, head)
  {
    BlockWords(m, blk, chunks, b);
    AwayFromBlock(blk, chunks, fl, b);
  }

  // A heap whose free list has got a new head.
  lemma PushStep(m: Memory, out: Memory, blk: Blocks, chunks: Chunks, live: set<int>, but: set<int>,
                 fl: seq<int>, head: int, b: int, safe: set<int>)
    requires MidOk(m, blk, chunks, live, but, fl, head)
    requires b in blk && b !in safe && forall x :: x in fl ==> x !in safe
    requires Links(out, [b] + fl, b) && OnlyNodes(m, out, [b] + fl)
    ensures MidOk(out, blk, chunks, live, but, [b] + fl, b) && Kept(m, out, blk, safe) && out.Keys == m.Keys
  {
    NodesStep(m, out, blk, chunks, live, but, fl, head, [b] + fl, b, [b] + fl, safe);
  }

  // A heap whose free list has lost node i.
  lemma UnlinkStep(m: Memory, out: Memory, blk: Blocks, chunks: Chunks, live: set<int>, but: set<int>,
                   fl: seq<int>, head: int, i: int, head': int, safe: set<int>)
    requires MidOk(m, blk, chunks, live, but, fl, head) && 0 <= i < |fl|
    requires forall x :: x in fl ==> x !in safe
    requires Links(out, Without(fl, i), head') && OnlyNodes(m, out, fl)
    ensures MidOk(out, blk, chunks, live, but, Without(fl, i), head') && Kept(m, out, blk, safe) && out.Keys == m.Keys
    ensures forall x :: x in Without(fl, i) <==> x in fl && x != fl[i]
  {
    WithoutMembers(fl, i);
    NodesStep(m, out, blk, chunks, live, but, fl, head, Without(fl, i), head', fl, safe);
  }

  // What GET_SIZE and GET_ALLOC see at a block's header and footer.
  lemma ReadTags(m: Memory, blk: Blocks, chunks: Chunks, live: set<int>, but: set<int>, p: int)
    requires Shape(blk, chunks) && Backed(m, chunks) && TagsBut(m, blk, live, but) && p in blk && p !in but
    ensures var h, f := p - 4, p + blk[p].size - 8;
            && h in m && f in m
            && SizeOf(m[h]) == SizeOf(m[f]) == blk[p].size && AllocOf(m[h]) == AllocOf(m[f]) == (p in live)
  {
    assert TagOk(m, blk, live, p);
    BlockWords(m, blk, chunks, p);
    PackRoundTrip(blk[p].size, p in live);
  }

  lemma CarveEnd(m: Memory, blk: Blocks, chunks: Chunks, live: set<int>, fl: seq<int>, i: int, n: int,
                 out: Memory, blk': Blocks, head': int)
    requires Shape(blk, chunks) && FreeExactly(fl, blk, live) && 0 <= i < |fl| && CanCarve(blk, chunks, live, fl[i], n)
    requires forall x :: x in Without(fl, i) <==> x in fl && x != fl[i]
    requires blk' == Carve(blk, fl[i], n)
    requires MidOk(out, blk', chunks, live + {fl[i]}, {}, CarveList(blk, fl, i, n), head')
    requires Kept(m, out, blk', live)
    ensures HeapOk(out, blk', chunks, live + {fl[i]}, CarveList(blk, fl, i, n), head')
    ensures Kept(m, out, blk, live)
  {
    CarveShape(blk, chunks, live, fl[i], n);
    forall a | a in m && InPayload(blk, live, a) ensures InPayload(blk', live, a) {
      var q :| q in live && q in blk && q <= a < q + blk[q].size - 8;
      assert q in blk' && blk'[q] == blk[q];
    }
  }

  lemma FreeStart(m: Memory, blk: Blocks, chunks: Chunks, live: set<int>, fl: seq<int>, head: int, p: int)
    requires HeapOk(m, blk, chunks, live, fl, head) && p in live
    ensures MidOk(m, blk, chunks, live - {p}, {p}, fl, head)
  {
    forall x | x in blk && x !in {p} ensures TagOk(m, blk, live - {p}, x) {
      assert TagOk(m, blk, live, x);
    }
  }

  // The blocks of `live` are where they were, with the sizes they had.
  ghost predicate SameBlocks(was: Blocks, now: Blocks, live: set<int>) {
    forall q :: q in live && q in was ==> q in now && now[q] == was[q]
  }

  lemma CarveSameBlocks(blk: Blocks, chunks: Chunks, live: set<int>, p: int, n: int)
    requires CanCarve(blk, chunks, live, p, n)
    ensures SameBlocks(blk, Carve(blk, p, n), live)
  {
    CarveShape(blk, chunks, live, p, n);
  }
}
