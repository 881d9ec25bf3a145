/** Maximal coalescing, and what freeing a block does to its neighbours. */
module HeapTidy {
  import opened Words
  import opened HeapShape
  import opened HeapMemory
  import opened HeapState
  import opened HeapChunks

  ghost predicate RightLive(blk: Blocks, live: set<int>, p: int) {
    p in blk && (p in live || p + blk[p].size !in blk || p + blk[p].size in live)
  }

  // No two adjacent free blocks.
  ghost predicate Coalesced(blk: Blocks, live: set<int>) {
    forall p {:trigger RightLive(blk, live, p)} :: p in blk ==> RightLive(blk, live, p)
  }

  // No chunk is one free block, except perhaps the chunk of block `but`.
  ghost predicate NoIdleBut(blk: Blocks, chunks: Chunks, live: set<int>, but: int) {
    forall p {:trigger Spans(blk, chunks, p)} :: Spans(blk, chunks, p) && p != but ==> p in live
  }

  ghost predicate Tidy(blk: Blocks, chunks: Chunks, live: set<int>) {
    Coalesced(blk, live) && NoIdleBut(blk, chunks, live, 0)
  }

  lemma CarveTidy(blk: Blocks, chunks: Chunks, live: set<int>, p: int, n: int)
    requires CanCarve(blk, chunks, live, p, n)
    requires Coalesced(blk, live) && NoIdleBut(blk, chunks, live, p)
    ensures Tidy(Carve(blk, p, n), chunks, live + {p})
  {
    CarveShape(blk, chunks, live, p, n);
    var out := Carve(blk, p, n);
    assert BlockOk(blk, chunks, p);
    forall x | x in out ensures RightLive(out, live + {p}, x) {
      assert RightLive(blk, live, p);
      if x in blk {
        assert RightLive(blk, live, x) && Gap(blk, x, p) && Gap(blk, p, x) && BlockOk(blk, chunks, x);
      }
    }
    forall x | Spans(out, chunks, x) ensures x in live + {p} {
      assert x in blk && x != p ==> Spans(blk, chunks, x);
    }
  }

  // -------------------------------------------------------------- neighbours

  lemma LeftUnique(blk: Blocks, chunks: Chunks, q: int, q': int, p: int)
    requires Shape(blk, chunks) && Touches(blk, q, p) && Touches(blk, q', p)
    ensures q == q'
  {
    assert Gap(blk, q, q') && Gap(blk, q', q) && BlockOk(blk, chunks, q) && BlockOk(blk, chunks, q');
  }

  // What PREV_BLKP and the prologue test see just below block p.
  lemma ReadLeft(m: Memory, blk: Blocks, chunks: Chunks, live: set<int>, p: int) returns (q: int)
    requires Shape(blk, chunks) && Backed(m, chunks) && Tags(m, blk, live) && Walls(m, chunks) && p in blk
    ensures p - 8 in m
    ensures p == blk[p].home + 16 ==> SizeOf(m[p - 8]) == 8 && AllocOf(m[p - 8])
    ensures p != blk[p].home + 16 ==>
              && SizeOf(m[p - 8]) == p - q && SizeOf(m[p - 8]) >= 32 && Touches(blk, q, p)
              && q - 4 in m && SizeOf(m[q - 4]) == p - q && AllocOf(m[q - 4]) == (q in live)
  {
    q := 0;
    assert BlockOk(blk, chunks, p) && HasLeft(blk, p);
    if p == blk[p].home + 16 {
      assert WallOk(m, chunks, blk[p].home);
      PackRoundTrip(8, true);
    } else {
      q :| Touches(blk, q, p);
      ReadTags(m, blk, chunks, live, {}, q);
      assert BlockOk(blk, chunks, q);
    }
  }

  // What NEXT_BLKP and the terminator test see just above block p.
  lemma ReadRight(m: Memory, blk: Blocks, chunks: Chunks, live: set<int>, p: int)
    requires Shape(blk, chunks) && Backed(m, chunks) && Tags(m, blk, live) && Walls(m, chunks) && p in blk
    ensures var r := p + blk[p].size;
            && r - 4 in m
            && (SizeOf(m[r - 4]) == 0 && AllocOf(m[r - 4]) <==> r !in blk)
            && blk[p].home in chunks && (r !in blk ==> r == blk[p].home + chunks[blk[p].home])
            && (r in blk ==> Touches(blk, p, r) && SizeOf(m[r - 4]) == blk[r].size && AllocOf(m[r - 4]) == (r in live))
  {
    var r := p + blk[p].size;
    assert BlockOk(blk, chunks, p) && HasRight(blk, chunks, p);
    if r in blk {
      ReadTags(m, blk, chunks, live, {}, r);
      assert BlockOk(blk, chunks, r);
      RightSameHome(blk, chunks, p);
    } else {
      assert WallOk(m, chunks, blk[p].home);
      PackRoundTrip(0, true);
    }
  }

  lemma RightSameHome(blk: Blocks, chunks: Chunks, p: int)
    requires Shape(blk, chunks) && p in blk && p + blk[p].size in blk
    ensures Touches(blk, p, p + blk[p].size) && 32 <= blk[p].size
  {
    var r := p + blk[p].size;
    assert BlockOk(blk, chunks, p) && BlockOk(blk, chunks, r) && HasRight(blk, chunks, p);
    assert ChunkGap(chunks, blk[p].home, blk[r].home) && ChunkGap(chunks, blk[r].home, blk[p].home);
  }

  lemma PrologueWords(m: Memory, chunks: Chunks, c: int)
    requires Walls(m, chunks) && c in chunks
    ensures c + 4 in m && c + 8 in m && SizeOf(m[c + 8]) == 8 && AllocOf(m[c + 8])
    ensures SizeOf(m[c + 4]) == 8 && AllocOf(m[c + 4])
  {
    assert WallOk(m, chunks, c);
    PackRoundTrip(8, true);
  }

  lemma PrologueBacked(m: Memory, blk: Blocks, chunks: Chunks, p: int)
    requires Shape(blk, chunks) && Backed(m, chunks) && p in blk
    ensures p - 12 in m && blk[p].home in chunks
  {
    assert BlockOk(blk, chunks, p);
    CellsAligned(p, 0);
    hide Shape;
    assert ChunkWord(chunks, blk[p].home, p - 12);
  }

  // The two prologue words are below block p exactly when p is the first of its chunk.
  lemma PrologueTest(m: Memory, blk: Blocks, chunks: Chunks, live: set<int>, p: int)
    requires Shape(blk, chunks) && Backed(m, chunks) && Tags(m, blk, live) && Walls(m, chunks) && p in blk
    ensures p - 8 in m && p - 12 in m
    ensures p == blk[p].home + 16 <==>
              SizeOf(m[p - 8]) == 8 && AllocOf(m[p - 8]) && SizeOf(m[p - 12]) == 8 && AllocOf(m[p - 12])
  {
    hide *;
    var q := ReadLeft(m, blk, chunks, live, p);
    PrologueBacked(m, blk, chunks, p);
    PrologueWords(m, chunks, blk[p].home);
  }

  lemma TerminatorTest(m: Memory, blk: Blocks, chunks: Chunks, live: set<int>, p: int)
    requires Shape(blk, chunks) && Backed(m, chunks) && Tags(m, blk, live) && Walls(m, chunks) && p in blk
    ensures p + blk[p].size - 4 in m && blk[p].home in chunks
    ensures var t := p + blk[p].size - 4;
            p + blk[p].size == blk[p].home + chunks[blk[p].home] <==> AllocOf(m[t]) && SizeOf(m[t]) == 0
  {
    ReadRight(m, blk, chunks, live, p);
    var r := p + blk[p].size;
    if r in blk {
      assert BlockOk(blk, chunks, r);
      RightSameHome(blk, chunks, p);
    }
  }

  // ---------------------------------------------------------------- freeing

  ghost predicate RightFree(blk: Blocks, live: set<int>, p: int) {
    p in blk && p + blk[p].size in blk && p + blk[p].size !in live
  }

  ghost predicate LeftFree(blk: Blocks, live: set<int>, q: int, p: int) {
    Touches(blk, q, p) && q !in live
  }

  ghost function AbsorbRight(blk: Blocks, live: set<int>, p: int): Blocks
    requires p in blk
  {
    if RightFree(blk, live, p) then Merge(blk, p, p + blk[p].size) else blk
  }

  // The blocks after p, no longer live, has been joined with its free neighbours.
  ghost function Release(blk: Blocks, live: set<int>, p: int): Blocks
    requires p in blk
  {
    var one := AbsorbRight(blk, live, p);
    if q :| LeftFree(blk, live, q, p) then Merge(one, q, p) else one
  }

  // Where the joined block starts.
  ghost function StartOf(blk: Blocks, live: set<int>, p: int): int {
    if q :| LeftFree(blk, live, q, p) then q else p
  }

  ghost function IndexIn(fl: seq<int>, x: int): int
    requires x in fl
  {
    var i :| 0 <= i < |fl| && fl[i] == x;
    i
  }

  ghost function Minus(fl: seq<int>, x: int): seq<int> {
    if x in fl then Without(fl, IndexIn(fl, x)) else fl
  }

  // The free list after the join: the right neighbour leaves, and the block itself
  // enters unless it joins a left neighbour that is on the list already.
  ghost function ReleaseList(blk: Blocks, live: set<int>, fl: seq<int>, p: int): seq<int>
    requires p in blk
  {
    var rest := if RightFree(blk, live, p) then Minus(fl, p + blk[p].size) else fl;
    if StartOf(blk, live, p) == p then [p] + rest else rest
  }

  // Only p may have a free neighbour.
  ghost predicate CoalescedAround(blk: Blocks, live: set<int>, p: int) {
    forall x {:trigger RightLive(blk, live, x)} :: x in blk && x != p ==>
      RightLive(blk, live, x) || x + blk[x].size == p
  }

  lemma AbsorbRightTidy(blk: Blocks, chunks: Chunks, live: set<int>, p: int)
    requires Shape(blk, chunks) && p in blk && p !in live && CoalescedAround(blk, live, p) && RightFree(blk, live, p)
    ensures var out := Merge(blk, p, p + blk[p].size);
            CoalescedAround(out, live, p) && RightLive(out, live, p)
  {
    var r := p + blk[p].size;
    var out := Merge(blk, p, r);
    assert BlockOk(blk, chunks, p) && BlockOk(blk, chunks, r) && RightLive(blk, live, r);
    forall x | x in out && x != p ensures RightLive(out, live, x) || x + out[x].size == p {
      assert RightLive(blk, live, x) || x + blk[x].size == p;
    }
  }

  lemma AbsorbLeftTidy(blk: Blocks, chunks: Chunks, live: set<int>, q: int, p: int)
    requires Shape(blk, chunks) && CoalescedAround(blk, live, p) && RightLive(blk, live, p) && p !in live
    requires LeftFree(blk, live, q, p)
    ensures Coalesced(Merge(blk, q, p), live)
  {
    var out := Merge(blk, q, p);
    assert BlockOk(blk, chunks, q) && BlockOk(blk, chunks, p);
    forall x | x in out ensures RightLive(out, live, x) {
      if x != q {
        assert RightLive(blk, live, x) || x + blk[x].size == p;
        assert Gap(blk, x, q) && Gap(blk, q, x) && BlockOk(blk, chunks, x);
      }
    }
  }

  lemma NoLeftTidy(blk: Blocks, chunks: Chunks, live: set<int>, p: int)
    requires Shape(blk, chunks) && CoalescedAround(blk, live, p) && RightLive(blk, live, p)
    requires forall q :: !LeftFree(blk, live, q, p)
    ensures Coalesced(blk, live)
  {
    forall x | x in blk ensures RightLive(blk, live, x) {
      assert x == p || RightLive(blk, live, x) || x + blk[x].size == p;
      if x + blk[x].size == p {
        RightSameHome(blk, chunks, x);
        assert !LeftFree(blk, live, x, p);
      }
    }
  }

  lemma ReleaseTidy(blk: Blocks, chunks: Chunks, live: set<int>, p: int)
    requires Shape(blk, chunks) && Coalesced(blk, live) && p in blk && p in live
    ensures Shape(Release(blk, live - {p}, p), chunks) && Coalesced(Release(blk, live - {p}, p), live - {p})
  {
    var rest := live - {p};
    forall x | x in blk && x != p ensures RightLive(blk, rest, x) || x + blk[x].size == p {
      assert RightLive(blk, live, x);
    }
    var one := AbsorbRight(blk, rest, p);
    if RightFree(blk, rest, p) {
      RightSameHome(blk, chunks, p);
      MergeShape(blk, chunks, p, p + blk[p].size);
      AbsorbRightTidy(blk, chunks, rest, p);
    }
    AbsorbRightKeepsLeft(blk, chunks, rest, p);
    if q :| LeftFree(blk, rest, q, p) {
      MergeShape(one, chunks, q, p);
      AbsorbLeftTidy(one, chunks, rest, q, p);
      LeftFreeUnique(blk, chunks, rest, q, p);
    } else {
      NoLeftTidy(one, chunks, rest, p);
    }
  }

  lemma LeftFreeUnique(blk: Blocks, chunks: Chunks, live: set<int>, q: int, p: int)
    requires Shape(blk, chunks) && LeftFree(blk, live, q, p)
    ensures Release(blk, live, p) == Merge(AbsorbRight(blk, live, p), q, p) && StartOf(blk, live, p) == q
  {
    forall q' | LeftFree(blk, live, q', p) ensures q' == q {
      LeftUnique(blk, chunks, q, q', p);
    }
  }

  // The joined block and the list in the four cases of coalesce.
  lemma JoinIs(blk: Blocks, chunks: Chunks, live: set<int>, fl: seq<int>, p: int,
               q: int, prevAlloc: bool, nextAlloc: bool)
    requires Shape(blk, chunks) && p in blk
    requires prevAlloc <==> forall q' :: !LeftFree(blk, live, q', p)
    requires !prevAlloc ==> LeftFree(blk, live, q, p)
    requires nextAlloc <==> !RightFree(blk, live, p)
    ensures StartOf(blk, live, p) == if prevAlloc then p else q
    ensures prevAlloc && nextAlloc ==> Release(blk, live, p) == blk
    ensures prevAlloc && !nextAlloc ==> Release(blk, live, p) == Merge(blk, p, p + blk[p].size)
    ensures !prevAlloc && nextAlloc ==> Release(blk, live, p) == Merge(blk, q, p)
    ensures !prevAlloc && !nextAlloc ==> Release(blk, live, p) == Merge(Merge(blk, p, p + blk[p].size), q, p)
    ensures var rest := if nextAlloc then fl else Minus(fl, p + blk[p].size);
            ReleaseList(blk, live, fl, p) == if prevAlloc then [p] + rest else rest
  {
    if !prevAlloc {
      LeftFreeUnique(blk, chunks, live, q, p);
      assert BlockOk(blk, chunks, q);
    }
    hide Minus, Merge;
  }

  lemma AbsorbRightKeepsLeft(blk: Blocks, chunks: Chunks, live: set<int>, p: int)
    requires Shape(blk, chunks) && p in blk
    ensures forall q :: LeftFree(AbsorbRight(blk, live, p), live, q, p) <==> LeftFree(blk, live, q, p)
  {
    assert BlockOk(blk, chunks, p);
    var one := AbsorbRight(blk, live, p);
    assert RightFree(blk, live, p) ==> BlockOk(blk, chunks, p + blk[p].size);
    forall q ensures LeftFree(one, live, q, p) <==> LeftFree(blk, live, q, p) {
      if q in blk {
        assert BlockOk(blk, chunks, q);
      }
    }
  }

  lemma ReleaseIdle(blk: Blocks, chunks: Chunks, live: set<int>, p: int)
    requires Shape(blk, chunks) && p in blk && p in live && NoIdleBut(blk, chunks, live, 0)
    ensures var rest := live - {p};
            && StartOf(blk, rest, p) in Release(blk, rest, p)
            && NoIdleBut(Release(blk, rest, p), chunks, rest, StartOf(blk, rest, p))
  {
    var rest := live - {p};
    var out, s := Release(blk, rest, p), StartOf(blk, rest, p);
    assert RightFree(blk, rest, p) ==> BlockOk(blk, chunks, p + blk[p].size);
    assert BlockOk(blk, chunks, p);
    if q :| LeftFree(blk, rest, q, p) {
      LeftFreeUnique(blk, chunks, rest, q, p);
      assert BlockOk(blk, chunks, q);
    }
    forall x | Spans(out, chunks, x) && x != s ensures x in rest {
      assert x in blk && x != p && out[x] == blk[x];
      assert Spans(blk, chunks, x) && x in blk && BlockOk(blk, chunks, x);
    }
  }

  // --------------------------------------------------- the steps of coalesce

  // The join of a block with its right neighbour, before the new tags are written.
  lemma MergeStart(m: Memory, blk: Blocks, chunks: Chunks, live: set<int>, but: set<int>,
                   fl: seq<int>, head: int, p: int, r: int)
    requires MidOk(m, blk, chunks, live, but, fl, head) && Touches(blk, p, r)
    requires r !in fl && r !in live
    ensures MidOk(m, Merge(blk, p, r), chunks, live, but + {p}, fl, head)
  {
    MergeShape(blk, chunks, p, r);
    var out := Merge(blk, p, r);
    assert BlockOk(blk, chunks, p) && BlockOk(blk, chunks, r);
    forall x | x in out && x !in but + {p} ensures TagOk(m, out, live, x) {
      assert TagOk(m, blk, live, x);
    }
  }

  lemma MergeKept(m: Memory, out: Memory, blk: Blocks, p: int, r: int, safe: set<int>)
    requires Kept(m, out, Merge(blk, p, r), safe) && p !in safe && r !in safe
    ensures Kept(m, out, blk, safe)
  {
  }

  // Joining on the left: the state before the tags of q are rewritten, and after.
  lemma JoinLeftStep(m: Memory, blk: Blocks, chunks: Chunks, live: set<int>, but: set<int>,
                     fl: seq<int>, head: int, q: int, p: int)
    requires MidOk(m, blk, chunks, live, but, fl, head) && LeftFree(blk, live, q, p)
    requires p !in fl && p !in live && but <= {p}
    ensures var more := Merge(blk, q, p);
            && q in more && more[q].size == blk[q].size + blk[p].size && 0 <= more[q].size < INT_LIMIT - 1
            && var out := PutTags(m, q, more[q].size, false);
               && MidOk(out, more, chunks, live, {}, fl, head) && Kept(m, out, blk, live) && out.Keys == m.Keys
  {
    var more := Merge(blk, q, p);
    assert BlockOk(blk, chunks, q);
    MergeStart(m, blk, chunks, live, but, fl, head, q, p);
    MidTags(m, more, chunks, live, but + {q}, {q}, fl, head, p);
    WriteTagsStep(m, more, chunks, live, {q}, fl, head, q, live);
    MergeKept(m, PutTags(m, q, more[q].size, false), blk, q, p, live);
  }

  lemma MidTags(m: Memory, blk: Blocks, chunks: Chunks, live: set<int>, but: set<int>, but': set<int>,
                fl: seq<int>, head: int, p: int)
    requires MidOk(m, blk, chunks, live, but, fl, head) && but <= but' + {p} && p !in blk
    ensures MidOk(m, blk, chunks, live, but', fl, head)
  {
  }

  lemma JoinBothStep(m: Memory, blk: Blocks, chunks: Chunks, live: set<int>, fl: seq<int>, head: int, q: int, p: int)
    requires MidOk(m, blk, chunks, live, {}, fl, head)
    requires LeftFree(blk, live, q, p) && RightFree(blk, live, p)
    requires p !in live && p !in fl && p + blk[p].size !in fl
    ensures var r := p + blk[p].size;
            var both := Merge(Merge(blk, p, r), q, p);
            && q in both && both[q].size == blk[q].size + blk[p].size + blk[r].size && 0 <= both[q].size < INT_LIMIT - 1
            && var out := PutTags(m, q, both[q].size, false);
               && MidOk(out, both, chunks, live, {}, fl, head) && Kept(m, out, blk, live) && out.Keys == m.Keys
  {
    var r := p + blk[p].size;
    var one := Merge(blk, p, r);
    RightSameHome(blk, chunks, p);
    AbsorbRightKeepsLeft(blk, chunks, live, p);
    assert LeftFree(one, live, q, p);
    assert BlockOk(blk, chunks, p) && BlockOk(blk, chunks, q) && BlockOk(blk, chunks, r);
    MergeStart(m, blk, chunks, live, {}, fl, head, p, r);
    JoinLeftStep(m, one, chunks, live, {p}, fl, head, q, p);
    MergeKept(m, PutTags(m, q, Merge(one, q, p)[q].size, false), blk, p, r, live);
  }

  lemma NewChunkTidy(blk: Blocks, chunks: Chunks, live: set<int>, c: int, n: int)
    requires Shape(blk, chunks) && NewChunk(chunks, c, n) && Tidy(blk, chunks, live)
    ensures Coalesced(WithChunk(blk, c, n), live)
    ensures NoIdleBut(WithChunk(blk, c, n), chunks[c := n], live, c + 16)
  {
    var out, all := WithChunk(blk, c, n), chunks[c := n];
    NewChunkShape(blk, chunks, c, n);
    forall x | x in out ensures RightLive(out, live, x) {
      if x == c + 16 {
        assert c + n in blk ==> BlockOk(blk, chunks, c + n);
        assert ChunkOk(c, n);
      } else {
        assert RightLive(blk, live, x) && BlockOk(blk, chunks, x);
      }
    }
    forall x | Spans(out, all, x) && x != c + 16 ensures x in live {
      assert BlockOk(blk, chunks, x) && Spans(blk, chunks, x);
    }
  }

  lemma DropTidy(blk: Blocks, chunks: Chunks, live: set<int>, p: int)
    requires Shape(blk, chunks) && Coalesced(blk, live) && Spans(blk, chunks, p) && p !in live
    requires NoIdleBut(blk, chunks, live, p)
    ensures Tidy(blk - {p}, chunks - {blk[p].home}, live)
  {
    var less, rest := blk - {p}, chunks - {blk[p].home};
    forall x | x in less ensures RightLive(less, live, x) {
      assert RightLive(blk, live, x);
    }
    forall x | Spans(less, rest, x) ensures x in live {
      assert Spans(blk, chunks, x) && x != p;
    }
  }

  lemma ReleaseKept(m: Memory, out: Memory, blk: Blocks, chunks: Chunks, live: set<int>, p: int)
    requires Shape(blk, chunks) && p in blk && p !in live
    requires Kept(m, out, Release(blk, live, p), live)
    ensures Kept(m, out, blk, live)
  {
  }

  // No live block is touched when the free neighbours of another are joined.
  lemma ReleaseSameBlocks(blk: Blocks, chunks: Chunks, live: set<int>, p: int)
    requires Shape(blk, chunks) && p in blk && p !in live
    ensures SameBlocks(blk, Release(blk, live, p), live)
  {
  }
}
