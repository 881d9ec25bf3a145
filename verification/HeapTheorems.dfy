/** What the heap invariant means for the allocator's clients. */
module HeapTheorems {
  import opened Words
  import opened Sums
  import opened HeapShape
  import opened HeapMemory
  import opened HeapState
  import opened HeapChunks
  import opened HeapTidy
  import opened HeapAccount

  // ------------------------------------------------------------------ tiling

  ghost predicate Covers(blk: Blocks, c: int, p: int, a: int) {
    p in blk && blk[p].home == c && p - 4 <= a < p - 4 + blk[p].size
  }

  lemma {:induction false} CoveredFrom(blk: Blocks, chunks: Chunks, c: int, p: int, a: int) returns (q: int)
    requires Shape(blk, chunks) && p in blk && blk[p].home == c && c in chunks && p - 4 <= a < c + chunks[c] - 4
    ensures Covers(blk, c, q, a)
    decreases c + chunks[c] - p
  {
    assert BlockOk(blk, chunks, p) && HasRight(blk, chunks, p);
    if a < p - 4 + blk[p].size {
      q := p;
    } else {
      q := CoveredFrom(blk, chunks, c, p + blk[p].size, a);
    }
  }

  // The blocks of a chunk of n bytes at c tile exactly [c + 12, c + n - 4).
  lemma BlocksTileChunk(blk: Blocks, chunks: Chunks, c: int, a: int)
    requires Shape(blk, chunks) && c in chunks
    ensures c + 12 <= a < c + chunks[c] - 4 <==> exists p :: Covers(blk, c, p, a)
    ensures forall p, q :: Covers(blk, c, p, a) && Covers(blk, c, q, a) ==> p == q
  {
    if c + 12 <= a < c + chunks[c] - 4 {
      var q := CoveredFrom(blk, chunks, c, c + 16, a);
    }
    forall p | Covers(blk, c, p, a) ensures c + 12 <= a < c + chunks[c] - 4 {
      assert BlockOk(blk, chunks, p);
    }
    forall p, q | Covers(blk, c, p, a) && Covers(blk, c, q, a) ensures p == q {
      assert Gap(blk, p, q) && Gap(blk, q, p);
    }
  }

  // ------------------------------------------------------------ exact release

  lemma ChunkHasLiveBlock(blk: Blocks, chunks: Chunks, live: set<int>, c: int) returns (p: int)
    requires Shape(blk, chunks) && Tidy(blk, chunks, live) && c in chunks
    ensures p in blk && p in live && blk[p].home == c
  {
    p := c + 16;
    assert BlockOk(blk, chunks, p) && HasRight(blk, chunks, p) && RightLive(blk, live, p);
    if p !in live {
      assert !Spans(blk, chunks, p);
      p := p + blk[p].size;
    }
  }

  // With nothing live, nothing is left: no chunk, no block, no free-list node, no page.
  lemma BalancedHeapIsEmpty(m: Memory, pages: set<int>, blk: Blocks, chunks: Chunks, live: set<int>, fl: seq<int>,
                            head: int)
    requires HeapOk(m, blk, chunks, live, fl, head) && Tidy(blk, chunks, live) && Conserved(pages, chunks, blk)
    requires live == {}
    ensures chunks == map[] && blk == map[] && fl == [] && head == 0 && pages == {}
  {
    assert fl != [] ==> fl[0] in fl;
    if c :| c in chunks {
      var p := ChunkHasLiveBlock(blk, chunks, live, c);
    }
    if p :| p in blk {
      assert BlockOk(blk, chunks, p);
    }
    NoMembers(chunks.Keys);
    NoMembers(blk.Keys);
    assert Sizes(blk).Keys == blk.Keys;
  }

  // ------------------------------------------------------- what a free leaves

  // The list without x, in the order it has.
  ghost function Drop(fl: seq<int>, x: int): seq<int> {
    if fl == [] then [] else (if fl[0] == x then [] else [fl[0]]) + Drop(fl[1..], x)
  }

  lemma {:induction false} DropNothing(fl: seq<int>, x: int)
    requires x !in fl
    ensures Drop(fl, x) == fl
  {
    if fl != [] {
      DropNothing(fl[1..], x);
      assert [fl[0]] + fl[1..] == fl;
    }
  }

  lemma {:induction false} WithoutIsDrop(fl: seq<int>, i: int)
    requires 0 <= i < |fl| && forall j, k :: 0 <= j < k < |fl| ==> fl[j] != fl[k]
    ensures Without(fl, i) == Drop(fl, fl[i])
  {
    if i == 0 {
      DropNothing(fl[1..], fl[0]);
      assert Without(fl, 0) == fl[1..];
    } else {
      WithoutIsDrop(fl[1..], i - 1);
      assert fl[1..][i - 1] == fl[i] && fl[0] != fl[i];
      assert Without(fl, i) == [fl[0]] + Without(fl[1..], i - 1);
    }
  }

  lemma {:induction false} MinusIsDrop(fl: seq<int>, x: int)
    requires forall j, k :: 0 <= j < k < |fl| ==> fl[j] != fl[k]
    ensures Minus(fl, x) == Drop(fl, x)
  {
    if x in fl {
      WithoutIsDrop(fl, IndexIn(fl, x));
    } else {
      DropNothing(fl, x);
    }
  }

  // Block q of the same chunk ends where p begins.
  ghost predicate EndsAt(blk: Blocks, live: set<int>, q: int, p: int) {
    q in blk && p in blk && q !in live && blk[q].home == blk[p].home && q + blk[q].size == p
  }

  // A freed block becomes one with the free block that begins where it ends, which leaves the list, and with
  // the free block that ends where it begins, which keeps its place on the list; without one it goes to the
  // front.  All other blocks, and the order of the list, stay.
  lemma ReleaseJoins(blk: Blocks, chunks: Chunks, live: set<int>, fl: seq<int>, p: int)
    requires Shape(blk, chunks) && p in blk && forall j, k :: 0 <= j < k < |fl| ==> fl[j] != fl[k]
    ensures var out, s, list := Release(blk, live, p), StartOf(blk, live, p), ReleaseList(blk, live, fl, p);
            var r, home := p + blk[p].size, blk[p].home;
            var right := if r in blk && r !in live then {r} else {};
            var size := blk[p].size + if r in blk && r !in live then blk[r].size else 0;
            var rest := if r in blk && r !in live then Drop(fl, r) else fl;
            && ((forall q :: !EndsAt(blk, live, q, p)) ==>
                  s == p && out == (blk - right)[p := Block(size, home)] && list == [p] + rest)
            && (forall q :: EndsAt(blk, live, q, p) ==>
                  s == q && out == (blk - right - {p})[q := Block(blk[q].size + size, home)] && list == rest)
  {
    hide Release, ReleaseList, StartOf, Minus, Drop, Shape;
    var r := p + blk[p].size;
    MinusIsDrop(fl, r);
    assert BlockOk(blk, chunks, p) by { BlockIsOk(blk, chunks, p); }
    forall q ensures EndsAt(blk, live, q, p) <==> LeftFree(blk, live, q, p) {
    }
    if q :| LeftFree(blk, live, q, p) {
      BlockIsOk(blk, chunks, q);
      JoinIs(blk, chunks, live, fl, p, q, false, !RightFree(blk, live, p));
      forall q' | EndsAt(blk, live, q', p) ensures q' == q {
        LeftFreeUnique(blk, chunks, live, q, p);
        LeftFreeUnique(blk, chunks, live, q', p);
      }
    } else {
      JoinIs(blk, chunks, live, fl, p, p, true, !RightFree(blk, live, p));
    }
  }

  lemma BlockIsOk(blk: Blocks, chunks: Chunks, p: int)
    requires Shape(blk, chunks) && p in blk
    ensures BlockOk(blk, chunks, p)
  {
  }

  // --------------------------------------------------- free undoes malloc

  // Freeing a block straight after carving it out of free block p restores the layout.
  lemma FreeUndoesCarve(blk: Blocks, chunks: Chunks, live: set<int>, p: int, n: int)
    requires CanCarve(blk, chunks, live, p, n) && Coalesced(blk, live)
    ensures Release(Carve(blk, p, n), live, p) == blk && StartOf(Carve(blk, p, n), live, p) == p
  {
    CarveShape(blk, chunks, live, p, n);
    var out := Carve(blk, p, n);
    assert BlockOk(blk, chunks, p) && RightLive(blk, live, p);
    forall q ensures !LeftFree(out, live, q, p) {
      assert q in out ==> BlockOk(out, chunks, q);
      assert q in blk ==> RightLive(blk, live, q);
    }
    if blk[p].size - n > 16 {
      assert Merge(out, p, p + n) == blk;
    }
  }

  // The same for a block carved out of a chunk mapped for it: the chunk goes back.
  lemma FreeUndoesNewChunk(blk: Blocks, chunks: Chunks, live: set<int>, c: int, size: int, n: int)
    requires Shape(blk, chunks) && Tidy(blk, chunks, live) && live <= blk.Keys && NewChunk(chunks, c, size)
    requires 32 <= n <= size - 16 && n % 16 == 0
    ensures var more := WithChunk(blk, c, size);
            var joined := Release(Carve(more, c + 16, n), live, c + 16);
            && Spans(joined, chunks[c := size], c + 16)
            && joined - {c + 16} == blk && chunks[c := size] - {c} == chunks
  {
    var more := WithChunk(blk, c, size);
    NewChunkShape(blk, chunks, c, size);
    NewChunkTidy(blk, chunks, live, c, size);
    FreeUndoesCarve(more, chunks[c := size], live, c + 16, n);
    assert more - {c + 16} == blk;
    assert chunks[c := size] - {c} == chunks;
  }

  // ----------------------------------------------------------------- clients

  // Payloads are aligned, on mapped pages, and disjoint.
  lemma PayloadsSound(pages: set<int>, blk: Blocks, chunks: Chunks, p: int, q: int, a: int)
    requires Shape(blk, chunks) && ChunksMapped(pages, chunks) && p in blk && q in blk
    ensures p % 16 == 0
    ensures p <= a < p + blk[p].size - 8 ==> a - a % PAGE_SIZE in pages
    ensures p != q ==> p + blk[p].size - 8 <= q || q + blk[q].size - 8 <= p
  {
    assert BlockOk(blk, chunks, p) && BlockOk(blk, chunks, q) && Gap(blk, p, q) && Gap(blk, q, p);
    var c := blk[p].home;
    assert PagesMapped(pages, chunks, c) && ChunkOk(c, chunks[c]);
    if p <= a < p + blk[p].size - 8 { PageWithin(c, chunks[c], a); }
    PageInRange(c, chunks[c], a - a % PAGE_SIZE);
  }

  lemma PageWithin(c: int, n: int, a: int)
    requires c % 4096 == 0 && n % 4096 == 0 && c <= a < c + n
    ensures c <= a - a % 4096 < c + n && (a - a % 4096) % 4096 == 0
  {
    var x, y := c / 4096, a / 4096;
    assert c == 4096 * x && a - a % 4096 == 4096 * y && x <= y;
  }

  // The free list holds each free block once.
  lemma FreeListOnce(m: Memory, blk: Blocks, chunks: Chunks, live: set<int>, fl: seq<int>, head: int)
    requires HeapOk(m, blk, chunks, live, fl, head)
    ensures forall i, j :: 0 <= i < j < |fl| ==> fl[i] != fl[j]
    ensures (set x | x in fl) == blk.Keys - live
    ensures |fl| == |blk.Keys - live|
  {
    forall i, j | 0 <= i < j < |fl| ensures fl[i] != fl[j] {
      assert NodeGap(fl, i, j);
    }
    DistinctCount(fl);
    assert forall x :: x in fl <==> x in blk.Keys - live;
  }

  lemma {:induction false} DistinctCount(s: seq<int>)
    requires forall i, j :: 0 <= i < j < |s| ==> s[i] != s[j]
    ensures |set x | x in s| == |s|
  {
    if s != [] {
      var rest := s[..|s| - 1];
      DistinctCount(rest);
      assert (set x | x in s) == (set x | x in rest) + {s[|s| - 1]};
    }
  }

  // The payload bytes of live blocks, at most what is mapped.
  lemma LiveFitsHeap(pages: set<int>, blk: Blocks, chunks: Chunks, requested: map<int, int>)
    requires Shape(blk, chunks) && Conserved(pages, chunks, blk) && requested.Keys <= blk.Keys
    requires forall p :: p in requested ==> requested[p] <= blk[p].size - 8
    ensures Total(requested) <= PAGE_SIZE * |pages|
  {
    var sizes := Sizes(blk);
    forall p | p in sizes ensures 0 <= sizes[p] {
      assert BlockOk(blk, chunks, p);
    }
    TotalMonotone(requested, sizes);
  }
}
