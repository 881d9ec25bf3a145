/** The layout of the allocator's chunks and blocks, independent of memory contents. */
module HeapShape {
  import opened Words

  const MAX_CHUNK := 0x7FFF_F000

  // A block is named by its payload address bp and covers [bp - 4, bp - 4 + size).
  datatype Block = Block(size: int, home: int)
  type Blocks = map<int, Block>
  type Chunks = map<int, int>

  ghost predicate ChunkOk(c: int, n: int) {
    0 < c && c % 4096 == 0 && n % 4096 == 0 && 4096 <= n <= MAX_CHUNK && c + n <= ADDRESS_LIMIT
  }

  ghost predicate ChunkGap(chunks: Chunks, c: int, d: int) {
    c in chunks && d in chunks && c < d ==> c + chunks[c] <= d
  }

  ghost predicate ChunksOk(chunks: Chunks) {
    && (forall c :: c in chunks ==> ChunkOk(c, chunks[c]))
    && (forall c, d :: ChunkGap(chunks, c, d))
  }

  ghost predicate BlockOk(blk: Blocks, chunks: Chunks, p: int)
    requires p in blk
  {
    var b := blk[p];
    && p % 16 == 0 && b.size % 16 == 0 && 32 <= b.size
    && b.home in chunks && b.home + 16 <= p && p + b.size <= b.home + chunks[b.home]
  }

  ghost predicate BlocksOk(blk: Blocks, chunks: Chunks) {
    forall p {:trigger BlockOk(blk, chunks, p)} :: p in blk ==> BlockOk(blk, chunks, p)
  }

  ghost predicate Gap(blk: Blocks, p: int, q: int) {
    p in blk && q in blk && p < q ==> p + blk[p].size <= q
  }

  ghost predicate Apart(blk: Blocks) {
    forall p, q :: Gap(blk, p, q)
  }

  ghost predicate FirstsOk(blk: Blocks, chunks: Chunks) {
    forall c :: c in chunks ==> c + 16 in blk && blk[c + 16].home == c
  }

  ghost predicate HasRight(blk: Blocks, chunks: Chunks, p: int) {
    p in blk && blk[p].home in chunks &&
    var r := p + blk[p].size;
    r == blk[p].home + chunks[blk[p].home] || (r in blk && blk[r].home == blk[p].home)
  }

  ghost predicate RightsOk(blk: Blocks, chunks: Chunks) {
    forall p {:trigger HasRight(blk, chunks, p)} :: p in blk ==> HasRight(blk, chunks, p)
  }

  ghost predicate Touches(blk: Blocks, q: int, p: int) {
    q in blk && p in blk && q + blk[q].size == p && blk[q].home == blk[p].home
  }

  ghost predicate HasLeft(blk: Blocks, p: int) {
    p in blk && (p == blk[p].home + 16 || exists q :: Touches(blk, q, p))
  }

  ghost predicate LeftsOk(blk: Blocks) {
    forall p {:trigger HasLeft(blk, p)} :: p in blk ==> HasLeft(blk, p)
  }

  ghost predicate Shape(blk: Blocks, chunks: Chunks) {
    && ChunksOk(chunks)
    && BlocksOk(blk, chunks)
    && Apart(blk)
    && FirstsOk(blk, chunks)
    && RightsOk(blk, chunks)
    && LeftsOk(blk)
  }

  ghost predicate Spans(blk: Blocks, chunks: Chunks, p: int) {
    p in blk && blk[p].home in chunks &&
    p == blk[p].home + 16 && p + blk[p].size == blk[p].home + chunks[blk[p].home]
  }

  ghost function Split(blk: Blocks, p: int, n: int): Blocks
    requires p in blk
  {
    blk[p := blk[p].(size := n)][p + n := Block(blk[p].size - n, blk[p].home)]
  }

  // p absorbs the block r to its right.
  ghost function Merge(blk: Blocks, p: int, r: int): Blocks {
    map x | x in blk && x != r ::
      if x == p && r in blk then Block(blk[p].size + blk[r].size, blk[p].home) else blk[x]
  }

  lemma MergeAt(blk: Blocks, p: int, r: int)
    requires Touches(blk, p, r) && p != r
    ensures forall x :: x in Merge(blk, p, r) <==> x in blk && x != r
    ensures Merge(blk, p, r)[p].size == blk[p].size + blk[r].size
  {
  }

  // ---------------------------------------------------------------- splitting

  ghost predicate CanSplit(blk: Blocks, chunks: Chunks, p: int, n: int) {
    Shape(blk, chunks) && p in blk && 32 <= n && n % 16 == 0 && n + 32 <= blk[p].size
  }

  lemma AddAligned(a: int, b: int)
    requires a % 16 == 0 && b % 16 == 0
    ensures (a + b) % 16 == 0
  {
  }

  lemma SplitFresh(blk: Blocks, chunks: Chunks, p: int, n: int)
    requires CanSplit(blk, chunks, p, n)
    ensures p + n !in blk
  {
    assert Gap(blk, p, p + n);
  }

  lemma SplitBlocks(blk: Blocks, chunks: Chunks, p: int, n: int)
    requires CanSplit(blk, chunks, p, n)
    ensures BlocksOk(Split(blk, p, n), chunks)
  {
    var out := Split(blk, p, n);
    assert BlockOk(blk, chunks, p);
    var size := blk[p].size;
    AddAligned(p, n);
    AddAligned(size, -n);
    forall x | x in out ensures BlockOk(out, chunks, x) {
      if x != p && x != p + n {
        assert BlockOk(blk, chunks, x);
      }
    }
  }

  lemma SplitApart(blk: Blocks, chunks: Chunks, p: int, n: int)
    requires CanSplit(blk, chunks, p, n)
    ensures Apart(Split(blk, p, n))
  {
    var out := Split(blk, p, n);
    forall x, y ensures Gap(out, x, y) {
      assert Gap(blk, x, y) && Gap(blk, p, y) && Gap(blk, x, p) && Gap(blk, p, x);
    }
  }

  lemma SplitRights(blk: Blocks, chunks: Chunks, p: int, n: int)
    requires CanSplit(blk, chunks, p, n)
    ensures RightsOk(Split(blk, p, n), chunks)
  {
    var out := Split(blk, p, n);
    SplitFresh(blk, chunks, p, n);
    assert HasRight(blk, chunks, p);
    forall x | x in out ensures HasRight(out, chunks, x) {
      assert x in blk ==> HasRight(blk, chunks, x);
    }
  }

  lemma SplitLefts(blk: Blocks, chunks: Chunks, p: int, n: int)
    requires CanSplit(blk, chunks, p, n)
    ensures LeftsOk(Split(blk, p, n))
  {
    var out := Split(blk, p, n);
    SplitFresh(blk, chunks, p, n);
    assert Touches(out, p, p + n);
    forall x | x in out ensures HasLeft(out, x) {
      if x != p + n {
        assert HasLeft(blk, x);
        if x != blk[x].home + 16 {
          var l :| Touches(blk, l, x);
          assert Touches(out, if l == p then p + n else l, x);
        }
      }
    }
  }

  lemma SplitShape(blk: Blocks, chunks: Chunks, p: int, n: int)
    requires CanSplit(blk, chunks, p, n)
    ensures p + n !in blk
    ensures Shape(Split(blk, p, n), chunks)
  {
    SplitFresh(blk, chunks, p, n);
    SplitBlocks(blk, chunks, p, n);
    SplitApart(blk, chunks, p, n);
    SplitRights(blk, chunks, p, n);
    SplitLefts(blk, chunks, p, n);
  }

  // ------------------------------------------------------------------ merging

  ghost predicate CanMerge(blk: Blocks, chunks: Chunks, p: int, r: int) {
    Shape(blk, chunks) && Touches(blk, p, r)
  }

  lemma MergeBlocks(blk: Blocks, chunks: Chunks, p: int, r: int)
    requires CanMerge(blk, chunks, p, r)
    ensures BlocksOk(Merge(blk, p, r), chunks)
  {
    var out := Merge(blk, p, r);
    assert BlockOk(blk, chunks, p) && BlockOk(blk, chunks, r);
    forall x | x in out ensures BlockOk(out, chunks, x) {
      assert BlockOk(blk, chunks, x);
    }
  }

  lemma MergeApart(blk: Blocks, chunks: Chunks, p: int, r: int)
    requires CanMerge(blk, chunks, p, r)
    ensures Apart(Merge(blk, p, r))
  {
    var out := Merge(blk, p, r);
    assert BlockOk(blk, chunks, p);
    forall x, y ensures Gap(out, x, y) {
      assert Gap(blk, x, y) && Gap(blk, r, y) && Gap(blk, p, y);
    }
  }

  lemma MergeFirsts(blk: Blocks, chunks: Chunks, p: int, r: int)
    requires CanMerge(blk, chunks, p, r)
    ensures FirstsOk(Merge(blk, p, r), chunks)
  {
    assert BlockOk(blk, chunks, p);
  }

  lemma MergeRights(blk: Blocks, chunks: Chunks, p: int, r: int)
    requires CanMerge(blk, chunks, p, r)
    ensures RightsOk(Merge(blk, p, r), chunks)
  {
    var out := Merge(blk, p, r);
    assert BlockOk(blk, chunks, p) && BlockOk(blk, chunks, r);
    forall x | x in out ensures HasRight(out, chunks, x) {
      var y := if x == p then r else x;
      assert HasRight(blk, chunks, y) && BlockOk(blk, chunks, y);
      assert Gap(blk, p, x) && Gap(blk, x, p);
    }
  }

  lemma MergeLefts(blk: Blocks, chunks: Chunks, p: int, r: int)
    requires CanMerge(blk, chunks, p, r)
    ensures LeftsOk(Merge(blk, p, r))
  {
    var out := Merge(blk, p, r);
    assert BlockOk(blk, chunks, p);
    forall x | x in out ensures HasLeft(out, x) {
      assert HasLeft(blk, x);
      if x != blk[x].home + 16 {
        var l :| Touches(blk, l, x);
        assert Touches(out, if l == r then p else l, x);
      }
    }
  }

  lemma MergeShape(blk: Blocks, chunks: Chunks, p: int, r: int)
    requires CanMerge(blk, chunks, p, r)
    ensures Shape(Merge(blk, p, r), chunks)
  {
    MergeBlocks(blk, chunks, p, r);
    MergeApart(blk, chunks, p, r);
    MergeFirsts(blk, chunks, p, r);
    MergeRights(blk, chunks, p, r);
    MergeLefts(blk, chunks, p, r);
  }
}
