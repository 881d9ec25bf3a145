/** Single bytes of little-endian words, and the client's stores into its payloads. */
module Bytes {
  import opened Words
  import opened HeapShape
  import opened HeapMemory
  import opened HeapState

  function ByteOf(w: nat, k: nat): nat {
    if k == 0 then w % 256 else ByteOf(w / 256, k - 1)
  }

  function WithByte(w: nat, k: nat, b: nat): nat {
    if k == 0 then w / 256 * 256 + b else 256 * WithByte(w / 256, k - 1, b) + w % 256
  }

  function Span(n: nat): nat {
    if n == 0 then 1 else 256 * Span(n - 1)
  }

  lemma SplitByte(hi: nat, lo: nat)
    requires lo < 256
    ensures (256 * hi + lo) / 256 == hi && (256 * hi + lo) % 256 == lo
  {
  }

  lemma {:induction false} WithByteIs(w: nat, k: nat, b: nat, j: nat)
    requires b < 256
    ensures ByteOf(WithByte(w, k, b), j) == if j == k then b else ByteOf(w, j)
  {
    if k == 0 {
      SplitByte(w / 256, b);
    } else {
      SplitByte(WithByte(w / 256, k - 1, b), w % 256);
      if j > 0 {
        WithByteIs(w / 256, k - 1, b, j - 1);
      }
    }
  }

  lemma {:induction false} WithByteSpan(w: nat, k: nat, b: nat, n: nat)
    requires b < 256 && k < n && w < Span(n)
    ensures WithByte(w, k, b) < Span(n)
  {
    assert w / 256 < Span(n - 1);
    if k > 0 {
      WithByteSpan(w / 256, k - 1, b, n - 1);
    } else {
      assert WithByte(w, k, b) == 256 * (w / 256) + b;
    }
  }

  lemma WordWithByte(w: Word, k: nat, b: nat)
    requires b < 256 && k < 4
    ensures WithByte(w, k, b) < WORD
  {
    assert Span(4) == WORD by {
      assert Span(1) == 0x100 && Span(2) == 0x1_0000 && Span(3) == 0x100_0000;
    }
    WithByteSpan(w, k, b, 4);
  }

  function WordOf(a: int): int { a - a % 4 }

  function ByteAt(m: Memory, a: int): int
    requires WordOf(a) in m
  {
    ByteOf(m[WordOf(a)], a % 4)
  }

  function PutByte(m: Memory, a: int, b: int): Memory
    requires WordOf(a) in m && 0 <= b < 256
  {
    WordWithByte(m[WordOf(a)], a % 4, b);
    m[WordOf(a) := WithByte(m[WordOf(a)], a % 4, b)]
  }

  lemma PutByteAt(m: Memory, a: int, b: int, x: int)
    requires WordOf(a) in m && WordOf(x) in m && 0 <= b < 256
    ensures ByteAt(PutByte(m, a, b), x) == if x == a then b else ByteAt(m, x)
  {
    WithByteIs(m[WordOf(a)], a % 4, b, x % 4);
  }

  // Every byte of the n-byte payload at p holds b.
  ghost predicate Filled(m: Memory, p: int, n: int, b: int) {
    forall a :: p <= a < p + n ==> WordOf(a) in m && ByteAt(m, a) == b
  }

  // -------------------------------------------------------------- the client

  lemma StoreKeepsHeap(m: Memory, blk: Blocks, chunks: Chunks, live: set<int>, fl: seq<int>, head: int,
                       q: int, a: int, v: Word)
    requires HeapOk(m, blk, chunks, live, fl, head) && a in m
    requires q in live && q <= a < q + blk[q].size - 8
    ensures HeapOk(m[a := v], blk, chunks, live, fl, head)
    ensures Kept(m, m[a := v], blk, live - {q})
  {
    hide Shape, Tags, Walls, Links, Kept, Backed;
    StoreKeepsTags(m, blk, chunks, live, q, a, v);
    StoreKeepsWalls(m, blk, chunks, q, a, v);
    StoreKeepsLinks(m, blk, chunks, fl, head, q, a, v);
    StoreKeepsOthers(m, blk, chunks, live, q, a, v);
    assert Backed(m[a := v], chunks) by { SameBacked(m, m[a := v], chunks); }
  }

  lemma SameBacked(m: Memory, out: Memory, chunks: Chunks)
    requires Backed(m, chunks) && out.Keys == m.Keys
    ensures Backed(out, chunks)
  {
  }

  lemma StoreKeepsTags(m: Memory, blk: Blocks, chunks: Chunks, live: set<int>, q: int, a: int, v: Word)
    requires Shape(blk, chunks) && q in blk && q <= a < q + blk[q].size - 8 && a in m && Tags(m, blk, live)
    ensures Tags(m[a := v], blk, live)
  {
    var out := m[a := v];
    forall p | p in blk ensures TagOk(out, blk, live, p) {
      assert TagOk(m, blk, live, p) && BlockOk(blk, chunks, p) && BlockOk(blk, chunks, q);
      assert Gap(blk, p, q) && Gap(blk, q, p);
    }
  }

  lemma StoreKeepsLinks(m: Memory, blk: Blocks, chunks: Chunks, fl: seq<int>, head: int, q: int, a: int, v: Word)
    requires Shape(blk, chunks) && q in blk && q <= a < q + blk[q].size - 8 && a in m && Links(m, fl, head)
    requires q !in fl && forall x :: x in fl ==> x in blk
    ensures Links(m[a := v], fl, head)
  {
    var out := m[a := v];
    forall i | 0 <= i < |fl| ensures NodeOk(out, fl, i) {
      assert NodeOk(m, fl, i) && fl[i] in fl;
      assert BlockOk(blk, chunks, fl[i]) && Gap(blk, fl[i], q) && Gap(blk, q, fl[i]);
    }
  }

  lemma StoreKeepsOthers(m: Memory, blk: Blocks, chunks: Chunks, live: set<int>, q: int, a: int, v: Word)
    requires Shape(blk, chunks) && q in blk && q <= a < q + blk[q].size - 8 && a in m
    ensures Kept(m, m[a := v], blk, live - {q})
  {
    forall p | p in live - {q} && p in blk ensures !(p <= a < p + blk[p].size - 8) {
      assert Gap(blk, p, q) && Gap(blk, q, p);
    }
  }

  lemma StoreKeepsWalls(m: Memory, blk: Blocks, chunks: Chunks, q: int, a: int, v: Word)
    requires Shape(blk, chunks) && q in blk && q <= a < q + blk[q].size - 8 && a in m && Walls(m, chunks)
    ensures Walls(m[a := v], chunks)
  {
    var out := m[a := v];
    assert BlockOk(blk, chunks, q);
    var h := blk[q].home;
    forall c | c in chunks ensures WallOk(out, chunks, c) {
      assert WallOk(m, chunks, c) && ChunkGap(chunks, c, h) && ChunkGap(chunks, h, c) && ChunkOk(c, chunks[c]);
    }
  }

  lemma KeptKeepsFill(m: Memory, out: Memory, blk: Blocks, live: set<int>, p: int, n: int, b: int)
    requires Kept(m, out, blk, live) && Filled(m, p, n, b)
    requires p in live && p in blk && p % 16 == 0 && n + 8 <= blk[p].size
    ensures Filled(out, p, n, b)
  {
    forall a | p <= a < p + n ensures WordOf(a) in out && ByteAt(out, a) == b {
      WordInside(p, a);
      assert WordOf(a) in m && ByteAt(m, a) == b;
      assert InPayload(blk, live, WordOf(a));
    }
  }

  lemma WordInside(p: int, a: int)
    requires p % 16 == 0 && p <= a
    ensures p <= WordOf(a) <= a && WordOf(a) % 4 == 0
  {
  }

  lemma PayloadWord(m: Memory, blk: Blocks, chunks: Chunks, p: int, a: int)
    requires Shape(blk, chunks) && Backed(m, chunks) && p in blk && p <= a < p + blk[p].size - 8
    ensures WordOf(a) in m
  {
    assert BlockOk(blk, chunks, p);
    WordInside(p, a);
    InChunk(m, chunks, blk[p].home, WordOf(a));
  }

  lemma InChunk(m: Memory, chunks: Chunks, c: int, a: int)
    requires Backed(m, chunks) && c in chunks && c <= a < c + chunks[c] && a % 4 == 0
    ensures a in m
  {
    assert ChunkWord(chunks, c, a);
  }
}
