/** Whole chunks entering and leaving the heap. */
module HeapChunks {
  import opened Words
  import opened HeapShape
  import opened HeapMemory
  import opened HeapState

  ghost predicate ApartFrom(chunks: Chunks, lo: int, hi: int) {
    forall d :: d in chunks ==> d + chunks[d] <= lo || hi <= d
  }

  ghost predicate SameOutside(m: Memory, out: Memory, lo: int, hi: int) {
    forall a :: a in m && !(lo <= a < hi) ==> a in out && out[a] == m[a]
  }

  ghost predicate BlocksApart(blk: Blocks, lo: int, hi: int) {
    forall p :: p in blk ==> p + blk[p].size <= lo || hi <= p - 16
  }

  lemma ApartBlocks(blk: Blocks, chunks: Chunks, lo: int, hi: int)
    requires Shape(blk, chunks) && ApartFrom(chunks, lo, hi)
    ensures BlocksApart(blk, lo, hi)
  {
    forall p | p in blk ensures p + blk[p].size <= lo || hi <= p - 16 {
      assert BlockOk(blk, chunks, p);
    }
  }

  lemma RegionKeepsTags(m: Memory, out: Memory, blk: Blocks, chunks: Chunks, live: set<int>, lo: int, hi: int)
    requires Shape(blk, chunks) && ApartFrom(chunks, lo, hi) && SameOutside(m, out, lo, hi)
    requires Tags(m, blk, live)
    ensures Tags(out, blk, live)
  {
    ApartBlocks(blk, chunks, lo, hi);
    forall p | p in blk ensures TagOk(out, blk, live, p) {
      assert BlockOk(blk, chunks, p) && TagOk(m, blk, live, p);
    }
  }

  lemma RegionKeepsWalls(m: Memory, out: Memory, chunks: Chunks, lo: int, hi: int)
    requires ChunksOk(chunks) && ApartFrom(chunks, lo, hi) && SameOutside(m, out, lo, hi)
    requires Walls(m, chunks)
    ensures Walls(out, chunks)
  {
    forall c | c in chunks ensures WallOk(out, chunks, c) {
      assert WallOk(m, chunks, c) && ChunkOk(c, chunks[c]);
    }
  }

  lemma RegionKeepsLinks(m: Memory, out: Memory, blk: Blocks, chunks: Chunks, fl: seq<int>, head: int, lo: int, hi: int)
    requires Shape(blk, chunks) && ApartFrom(chunks, lo, hi) && SameOutside(m, out, lo, hi)
    requires Nodes(fl, blk) && Links(m, fl, head)
    ensures Links(out, fl, head)
  {
    ApartBlocks(blk, chunks, lo, hi);
    forall i | 0 <= i < |fl| ensures NodeOk(out, fl, i) {
      assert NodeOk(m, fl, i) && fl[i] in fl && BlockOk(blk, chunks, fl[i]);
    }
  }

  lemma RegionKeepsRest(m: Memory, out: Memory, blk: Blocks, chunks: Chunks, live: set<int>, lo: int, hi: int)
    requires Shape(blk, chunks) && ApartFrom(chunks, lo, hi) && SameOutside(m, out, lo, hi)
    requires Backed(m, chunks)
    ensures Backed(out, chunks) && Kept(m, out, blk, live)
  {
    ApartBlocks(blk, chunks, lo, hi);
    forall c, a | ChunkWord(chunks, c, a) ensures a in out {
    }
  }

  lemma RegionStep(m: Memory, out: Memory, blk: Blocks, chunks: Chunks, live: set<int>,
                   fl: seq<int>, head: int, lo: int, hi: int)
    requires MidOk(m, blk, chunks, live, {}, fl, head) && ApartFrom(chunks, lo, hi) && SameOutside(m, out, lo, hi)
    ensures MidOk(out, blk, chunks, live, {}, fl, head) && Kept(m, out, blk, live)
  {
    RegionKeepsTags(m, out, blk, chunks, live, lo, hi);
    RegionKeepsWalls(m, out, chunks, lo, hi);
    RegionKeepsLinks(m, out, blk, chunks, fl, head, lo, hi);
    RegionKeepsRest(m, out, blk, chunks, live, lo, hi);
  }

  // ------------------------------------------------------------- a new chunk

  ghost predicate NewChunk(chunks: Chunks, c: int, n: int) {
    ChunkOk(c, n) && ApartFrom(chunks, c, c + n)
  }

  ghost function WithChunk(blk: Blocks, c: int, n: int): Blocks {
    blk[c + 16 := Block(n - 16, c)]
  }

  lemma NewChunkShape(blk: Blocks, chunks: Chunks, c: int, n: int)
    requires Shape(blk, chunks) && NewChunk(chunks, c, n)
    ensures Shape(WithChunk(blk, c, n), chunks[c := n]) && c !in chunks && c + 16 !in blk
  {
    var out, all := WithChunk(blk, c, n), chunks[c := n];
    ApartBlocks(blk, chunks, c, c + n);
    assert c in chunks ==> ChunkOk(c, chunks[c]);
    assert c + 16 in blk ==> BlockOk(blk, chunks, c + 16);
    NewChunkChunks(chunks, c, n);
    NewChunkBlocks(blk, chunks, c, n);
    forall p, q ensures Gap(out, p, q) {
      assert Gap(blk, p, q);
      assert p in blk ==> BlockOk(blk, chunks, p);
      assert q in blk ==> BlockOk(blk, chunks, q);
    }
    NewChunkNeighbours(blk, chunks, c, n);
  }

  lemma NewChunkChunks(chunks: Chunks, c: int, n: int)
    requires ChunksOk(chunks) && NewChunk(chunks, c, n)
    ensures ChunksOk(chunks[c := n])
  {
    var all := chunks[c := n];
    forall x, y ensures ChunkGap(all, x, y) {
      assert ChunkGap(chunks, x, y);
      assert x in chunks ==> ChunkOk(x, chunks[x]);
      assert y in chunks ==> ChunkOk(y, chunks[y]);
    }
  }

  lemma FirstBlockAligned(c: int, n: int)
    requires ChunkOk(c, n)
    ensures (c + 16) % 16 == 0 && (n - 16) % 16 == 0 && 32 <= n - 16
  {
    var x, y := c / 4096, n / 4096;
    Times16(256 * x + 1);
    Times16(256 * y - 1);
    assert c + 16 == 16 * (256 * x + 1) && n - 16 == 16 * (256 * y - 1);
  }

  lemma NewChunkBlocks(blk: Blocks, chunks: Chunks, c: int, n: int)
    requires Shape(blk, chunks) && NewChunk(chunks, c, n)
    ensures BlocksOk(WithChunk(blk, c, n), chunks[c := n])
  {
    var out, all := WithChunk(blk, c, n), chunks[c := n];
    FirstBlockAligned(c, n);
    assert c in chunks ==> ChunkOk(c, chunks[c]);
    forall p | p in out ensures BlockOk(out, all, p) {
      if p != c + 16 {
        assert BlockOk(blk, chunks, p);
      }
    }
  }

  lemma NewChunkNeighbours(blk: Blocks, chunks: Chunks, c: int, n: int)
    requires Shape(blk, chunks) && NewChunk(chunks, c, n) && c + 16 !in blk && c !in chunks
    ensures RightsOk(WithChunk(blk, c, n), chunks[c := n])
    ensures LeftsOk(WithChunk(blk, c, n))
  {
    var out, all := WithChunk(blk, c, n), chunks[c := n];
    forall p | p in out ensures HasRight(out, all, p) {
      if p != c + 16 {
        assert HasRight(blk, chunks, p);
      }
    }
    forall p | p in out ensures HasLeft(out, p) {
      if p != c + 16 {
        assert HasLeft(blk, p);
        if p != blk[p].home + 16 {
          var l :| Touches(blk, l, p);
          assert Touches(out, l, p);
        }
      }
    }
  }

  // Memory after page_set_up on the chunk at c.
  ghost function SetUp(m: Memory, c: int, n: int): Memory
    requires 16 <= n < INT_LIMIT
  {
    PutTags(m[c + 4 := Pack(8, true)][c + 8 := Pack(8, true)], c + 16, n - 16, false)[c + n - 4 := Pack(0, true)]
  }

  lemma SetUpKeys(m: Memory, c: int, n: int)
    requires 16 <= n < INT_LIMIT && {c + 4, c + 8, c + 12, c + n - 8, c + n - 4} <= m.Keys
    ensures SetUp(m, c, n).Keys == m.Keys
  {
  }

  lemma SetUpStep(m: Memory, m1: Memory, blk: Blocks, chunks: Chunks, live: set<int>, fl: seq<int>, head: int,
                  c: int, n: int)
    requires MidOk(m, blk, chunks, live, {}, fl, head) && NewChunk(chunks, c, n)
    requires SameOutside(m, m1, c, c + n)
    requires forall a :: c <= a < c + n && a % 4 == 0 ==> a in m1
    ensures var out := SetUp(m1, c, n);
            && MidOk(out, WithChunk(blk, c, n), chunks[c := n], live, {}, fl, head)
            && Kept(m, out, blk, live)
  {
    var out := SetUp(m1, c, n);
    NewChunkShape(blk, chunks, c, n);
    RegionStep(m, out, blk, chunks, live, fl, head, c, c + n);
    SetUpTags(m1, out, blk, chunks, live, c, n);
    var all := chunks[c := n];
    forall d, a | ChunkWord(all, d, a) ensures a in out {
      assert d != c ==> ChunkWord(chunks, d, a);
    }
  }

  lemma SetUpTags(m1: Memory, out: Memory, blk: Blocks, chunks: Chunks, live: set<int>, c: int, n: int)
    requires Shape(blk, chunks) && NewChunk(chunks, c, n) && c + 16 !in blk && c !in chunks && live <= blk.Keys
    requires out == SetUp(m1, c, n)
    requires Tags(out, blk, live) && Walls(out, chunks)
    ensures Tags(out, WithChunk(blk, c, n), live) && Walls(out, chunks[c := n])
  {
    forall p | p in WithChunk(blk, c, n) ensures TagOk(out, WithChunk(blk, c, n), live, p) {
      assert p != c + 16 ==> TagOk(out, blk, live, p);
    }
    var all := chunks[c := n];
    forall d | d in all ensures WallOk(out, all, d) {
      assert d != c ==> WallOk(out, chunks, d);
    }
  }

  // ------------------------------------------------------- a chunk going back

  lemma OnlyBlock(blk: Blocks, chunks: Chunks, p: int, x: int)
    requires Shape(blk, chunks) && Spans(blk, chunks, p) && x in blk && blk[x].home == blk[p].home
    ensures x == p
  {
    assert BlockOk(blk, chunks, x) && Gap(blk, p, x);
  }

  lemma DropShape(blk: Blocks, chunks: Chunks, p: int)
    requires Shape(blk, chunks) && Spans(blk, chunks, p)
    ensures Shape(blk - {p}, chunks - {blk[p].home})
    ensures ApartFrom(chunks - {blk[p].home}, blk[p].home, blk[p].home + chunks[blk[p].home])
  {
    var c := blk[p].home;
    var out, rest := blk - {p}, chunks - {c};
    DropChunks(chunks, c);
    forall x | x in out ensures BlockOk(out, rest, x) && HasRight(out, rest, x) && HasLeft(out, x) {
      assert BlockOk(blk, chunks, x) && HasRight(blk, chunks, x) && HasLeft(blk, x);
      if blk[x].home == c {
        OnlyBlock(blk, chunks, p, x);
      }
      if x != blk[x].home + 16 {
        var l :| Touches(blk, l, x);
        assert Touches(out, l, x);
      }
    }
    forall x, y ensures Gap(out, x, y) {
      assert Gap(blk, x, y);
    }
  }

  lemma DropChunks(chunks: Chunks, c: int)
    requires ChunksOk(chunks) && c in chunks
    ensures ChunksOk(chunks - {c}) && ApartFrom(chunks - {c}, c, c + chunks[c])
  {
    var rest := chunks - {c};
    forall d, e ensures ChunkGap(rest, d, e) {
      assert ChunkGap(chunks, d, e);
    }
    forall d | d in rest ensures d + rest[d] <= c || c + chunks[c] <= d {
      assert ChunkGap(chunks, c, d) && ChunkGap(chunks, d, c);
    }
  }

  lemma DropStep(m: Memory, out: Memory, blk: Blocks, chunks: Chunks, live: set<int>, fl: seq<int>, head: int, p: int)
    requires MidOk(m, blk, chunks, live, {}, fl, head) && Spans(blk, chunks, p) && p !in fl && p !in live
    requires SameOutside(m, out, blk[p].home, blk[p].home + chunks[blk[p].home])
    ensures MidOk(out, blk - {p}, chunks - {blk[p].home}, live, {}, fl, head) && Kept(m, out, blk, live)
  {
    var c := blk[p].home;
    var less, rest := blk - {p}, chunks - {c};
    DropShape(blk, chunks, p);
    forall x | x in less ensures TagOk(m, less, live, x) {
      assert TagOk(m, blk, live, x);
    }
    forall d | d in rest ensures WallOk(m, rest, d) {
      assert WallOk(m, chunks, d);
    }
    forall d, a | ChunkWord(rest, d, a) ensures a in m {
      assert ChunkWord(chunks, d, a);
    }
    RegionStep(m, out, less, rest, live, fl, head, c, c + chunks[c]);
    forall a | a in m && InPayload(blk, live, a) ensures InPayload(less, live, a) {
      var q :| q in live && q in blk && q <= a < q + blk[q].size - 8;
      assert q in less && less[q] == blk[q];
    }
  }
}
