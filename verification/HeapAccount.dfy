/** Pages against chunks: where the heap's bytes are. */
module HeapAccount {
  import opened Words
  import opened Sums
  import opened HeapShape
  import opened HeapState
  import opened HeapChunks
  import opened HeapTidy

  ghost function Sizes(blk: Blocks): map<int, int> {
    map p | p in blk :: blk[p].size
  }

  // Every mapped byte is block, or one of the 16 bytes of walls each chunk spends.
  ghost predicate Conserved(pages: set<int>, chunks: Chunks, blk: Blocks) {
    PAGE_SIZE * |pages| == 16 * |chunks| + Total(Sizes(blk))
  }

  ghost predicate PagesMapped(pages: set<int>, chunks: Chunks, c: int) {
    c in chunks && PageRange(c, chunks[c]) <= pages
  }

  ghost predicate ChunksMapped(pages: set<int>, chunks: Chunks) {
    forall c {:trigger PagesMapped(pages, chunks, c)} :: c in chunks ==> PagesMapped(pages, chunks, c)
  }

  lemma SplitTotal(blk: Blocks, p: int, n: int)
    requires p in blk && p + n !in blk
    ensures Total(Sizes(Split(blk, p, n))) == Total(Sizes(blk))
  {
    var sizes := Sizes(blk);
    TotalUpdate(sizes, p, n);
    TotalAdd(sizes[p := n], p + n, blk[p].size - n);
    assert Sizes(Split(blk, p, n)) == sizes[p := n][p + n := blk[p].size - n];
  }

  lemma MergeTotal(blk: Blocks, p: int, r: int)
    requires p in blk && r in blk && p != r
    ensures Total(Sizes(Merge(blk, p, r))) == Total(Sizes(blk))
  {
    var sizes := Sizes(blk);
    TotalRemove(sizes, r);
    TotalUpdate(sizes - {r}, p, blk[p].size + blk[r].size);
    assert Sizes(Merge(blk, p, r)) == (sizes - {r})[p := blk[p].size + blk[r].size];
  }

  lemma CarveTotal(blk: Blocks, chunks: Chunks, live: set<int>, p: int, n: int)
    requires CanCarve(blk, chunks, live, p, n)
    ensures Total(Sizes(Carve(blk, p, n))) == Total(Sizes(blk))
  {
    CarveShape(blk, chunks, live, p, n);
    if blk[p].size - n > 16 {
      SplitTotal(blk, p, n);
    }
  }

  lemma ReleaseTotal(blk: Blocks, chunks: Chunks, live: set<int>, p: int)
    requires Shape(blk, chunks) && p in blk
    ensures Total(Sizes(Release(blk, live, p))) == Total(Sizes(blk))
  {
    assert BlockOk(blk, chunks, p);
    var one := AbsorbRight(blk, live, p);
    if RightFree(blk, live, p) {
      MergeTotal(blk, p, p + blk[p].size);
      assert BlockOk(blk, chunks, p + blk[p].size);
    }
    if q :| LeftFree(blk, live, q, p) {
      LeftFreeUnique(blk, chunks, live, q, p);
      assert BlockOk(blk, chunks, q);
      MergeTotal(one, q, p);
    }
  }

  // ----------------------------------------------------------- whole chunks

  lemma FreshIsApart(pages: set<int>, blk: Blocks, chunks: Chunks, c: int, n: int)
    requires Shape(blk, chunks) && ChunksMapped(pages, chunks)
    requires ChunkOk(c, n) && PageRange(c, n) !! pages
    ensures NewChunk(chunks, c, n)
  {
    forall d | d in chunks ensures d + chunks[d] <= c || c + n <= d {
      assert PagesMapped(pages, chunks, d) && ChunkOk(d, chunks[d]);
      var a := if c < d then d else c;
      PageInRange(d, chunks[d], a);
      PageInRange(c, n, a);
    }
  }

  lemma NewChunkAccount(pages: set<int>, blk: Blocks, chunks: Chunks, c: int, n: int)
    requires Conserved(pages, chunks, blk) && ChunksMapped(pages, chunks)
    requires ChunkOk(c, n) && PageRange(c, n) !! pages && c !in chunks && c + 16 !in blk
    ensures Conserved(pages + PageRange(c, n), chunks[c := n], WithChunk(blk, c, n))
    ensures ChunksMapped(pages + PageRange(c, n), chunks[c := n])
  {
    PageRangeSize(c, n);
    NewChunkTotal(pages, PageRange(c, n), blk, chunks, c, n);
    NewChunkMapped(pages, chunks, c, n);
  }

  lemma WithChunkTotal(blk: Blocks, c: int, n: int)
    requires c + 16 !in blk
    ensures Total(Sizes(WithChunk(blk, c, n))) == Total(Sizes(blk)) + n - 16
  {
    TotalAdd(Sizes(blk), c + 16, n - 16);
    assert Sizes(WithChunk(blk, c, n)) == Sizes(blk)[c + 16 := n - 16];
  }

  lemma NewChunkTotal(pages: set<int>, range: set<int>, blk: Blocks, chunks: Chunks, c: int, n: int)
    requires Conserved(pages, chunks, blk) && range !! pages && PAGE_SIZE * |range| == n
    requires c !in chunks && c + 16 !in blk
    ensures Conserved(pages + range, chunks[c := n], WithChunk(blk, c, n))
  {
    WithChunkTotal(blk, c, n);
    hide Total, Sizes, WithChunk;
    assert |pages + range| == |pages| + |range|;
    assert |chunks[c := n]| == |chunks| + 1;
  }

  lemma NewChunkMapped(pages: set<int>, chunks: Chunks, c: int, n: int)
    requires ChunksMapped(pages, chunks)
    ensures ChunksMapped(pages + PageRange(c, n), chunks[c := n])
  {
    var all, more := chunks[c := n], pages + PageRange(c, n);
    forall d | d in all ensures PagesMapped(more, all, d) {
      assert d != c ==> PagesMapped(pages, chunks, d);
    }
  }

  // p is the only block of its chunk, which goes back to the system.
  ghost function WithoutChunk(chunks: Chunks, c: int): Chunks {
    chunks - {c}
  }

  lemma DropAccount(pages: set<int>, blk: Blocks, chunks: Chunks, p: int)
    requires Shape(blk, chunks) && Conserved(pages, chunks, blk) && ChunksMapped(pages, chunks)
    requires Spans(blk, chunks, p)
    ensures var c := blk[p].home;
            var range := PageRange(c, chunks[c]);
            && range <= pages && ChunkOk(c, chunks[c])
            && Conserved(pages - range, WithoutChunk(chunks, c), blk - {p})
            && ChunksMapped(pages - range, WithoutChunk(chunks, c))
  {
    var c := blk[p].home;
    var n := chunks[c];
    var range := PageRange(c, n);
    assert ChunkOk(c, n) && PagesMapped(pages, chunks, c);
    PageRangeSize(c, n);
    assert |pages - range| == |pages| - |range|;
    TotalRemove(Sizes(blk), p);
    assert Sizes(blk - {p}) == Sizes(blk) - {p};
    assert |chunks - {c}| == |chunks| - 1 by {
      assert (chunks - {c}).Keys == chunks.Keys - {c};
    }
    var rest, less := WithoutChunk(chunks, c), pages - range;
    forall d | d in rest ensures PagesMapped(less, rest, d) {
      assert PagesMapped(pages, chunks, d) && ChunkOk(d, chunks[d]);
      assert ChunkGap(chunks, c, d) && ChunkGap(chunks, d, c);
      forall a | a in PageRange(d, chunks[d]) ensures a !in range {
        PageInRange(d, chunks[d], a);
        PageInRange(c, n, a);
      }
    }
  }

  // Everything that mapping a fresh region for a chunk keeps.
  lemma ExtendAccount(m: Memory, pages: set<int>, blk: Blocks, chunks: Chunks, live: set<int>, fl: seq<int>, head: int,
                      c: int, n: int)
    requires HeapOk(m, blk, chunks, live, fl, head) && Tidy(blk, chunks, live)
    requires Conserved(pages, chunks, blk) && ChunksMapped(pages, chunks)
    requires ChunkOk(c, n) && PageRange(c, n) !! pages
    ensures NewChunk(chunks, c, n)
    ensures Conserved(pages + PageRange(c, n), chunks[c := n], WithChunk(blk, c, n))
    ensures ChunksMapped(pages + PageRange(c, n), chunks[c := n])
    ensures Coalesced(WithChunk(blk, c, n), live)
    ensures NoIdleBut(WithChunk(blk, c, n), chunks[c := n], live, c + 16)
  {
    FreshIsApart(pages, blk, chunks, c, n);
    NewChunkShape(blk, chunks, c, n);
    NewChunkAccount(pages, blk, chunks, c, n);
    NewChunkTidy(blk, chunks, live, c, n);
  }

  // Everything that freeing p keeps, apart from the memory itself.
  lemma ReleaseAccount(m: Memory, pages: set<int>, blk: Blocks, chunks: Chunks, live: set<int>, fl: seq<int>, head: int,
                       p: int)
    requires HeapOk(m, blk, chunks, live, fl, head) && Tidy(blk, chunks, live) && p in live
    requires Conserved(pages, chunks, blk)
    ensures var rest := live - {p};
            var out, s := Release(blk, rest, p), StartOf(blk, rest, p);
            && s in out && s !in rest && Coalesced(out, rest) && NoIdleBut(out, chunks, rest, s)
            && Conserved(pages, chunks, out)
  {
    ReleaseTidy(blk, chunks, live, p);
    ReleaseIdle(blk, chunks, live, p);
    ReleaseTotal(blk, chunks, live - {p}, p);
  }

  lemma CarveAccount(pages: set<int>, blk: Blocks, chunks: Chunks, live: set<int>, p: int, n: int)
    requires CanCarve(blk, chunks, live, p, n) && Conserved(pages, chunks, blk)
    ensures Conserved(pages, chunks, Carve(blk, p, n))
  {
    CarveTotal(blk, chunks, live, p, n);
  }
}
