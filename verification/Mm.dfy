/** The explicit-free-list allocator of mm.c. */
module Allocator {
  import opened Words
  import opened HeapShape
  import opened HeapMemory
  import opened HeapState
  import opened HeapTidy
  import opened HeapChunks
  import opened HeapAccount
  import opened Bytes
  import PageIndex
  import opened MemoryBridge

  // ALIGN and PAGE_ALIGN
  function Align(size: int): int { (size + 15) / 16 * 16 }
  function PageAlign(size: int): int { (size + PAGE_SIZE - 1) / PAGE_SIZE * PAGE_SIZE }
  function Max(x: int, y: int): int { if x > y then x else y }

  // The size of the block that serves a request, and of the chunk mapped for it.
  function BlockSize(request: int): int { Align(Max(request, 16) + 8) }
  function ChunkSize(blockSize: int): int { PageAlign(Max(PAGE_SIZE, blockSize) * 16) }

  // The least multiple of 16 that is at least 32 and leaves room for the request and 8 bytes of tags.
  ghost predicate LeastBlock(request: int, n: int) {
    n % 16 == 0 && 32 <= n && request + 8 <= n && (n - 16 < 32 || n - 16 < request + 8)
  }

  // The least multiple of the page size that is at least 65536 and at least 16 times the block.
  ghost predicate LeastChunk(n: int, size: int) {
    size % 4096 == 0 && 65536 <= size && 16 * n <= size && (size - 4096 < 65536 || size - 4096 < 16 * n)
  }

  lemma BlockSizeIs(request: int, n: int)
    requires 0 < request
    ensures LeastBlock(request, n) <==> n == BlockSize(request)
  {
    var m := BlockSize(request);
    assert m == 16 * ((Max(request, 16) + 23) / 16);
    if LeastBlock(request, n) {
      assert n == 16 * (n / 16);
    }
  }

  lemma ChunkSizeIs(n: int, size: int)
    requires 0 < n
    ensures LeastChunk(n, size) <==> size == ChunkSize(n)
  {
    assert ChunkSize(n) == 4096 * ((Max(4096, n) * 16 + 4095) / 4096);
    if LeastChunk(n, size) {
      assert size == 4096 * (size / 4096);
    }
  }

  // Block fl0[i] has gone to the client: its first n bytes when more than 16 are left over, and then the rest
  // is a free block at the front of the list; all of it otherwise.
  ghost predicate Divided(was: Blocks, fl0: seq<int>, i: int, n: int, blk: Blocks, fl: seq<int>)
    requires 0 <= i < |fl0| && fl0[i] in was
  {
    var p := fl0[i];
    var size, home := was[p].size, was[p].home;
    if size - n > 16 then
      blk == was[p := Block(n, home)][p + n := Block(size - n, home)] && fl == [p + n] + (fl0[..i] + fl0[i + 1..])
    else
      blk == was && fl == fl0[..i] + fl0[i + 1..]
  }

  lemma CarveDivides(was: Blocks, chunks: Chunks, live: set<int>, fl0: seq<int>, i: int, n: int)
    requires 0 <= i < |fl0| && CanCarve(was, chunks, live, fl0[i], n)
    ensures var blk, fl := Carve(was, fl0[i], n), CarveList(was, fl0, i, n);
            && Divided(was, fl0, i, n, blk, fl)
            && fl0[i] in blk && n <= blk[fl0[i]].size <= n + 16
            && (was[fl0[i]].size - n > 16 ==> fl0[i] + n in blk && blk[fl0[i] + n].size == was[fl0[i]].size - n)
  {
  }

  // The largest request whose chunk size still fits an int tag.
  const MAX_REQUEST := 0x7FF_FEF8

  lemma BlockSizeFits(request: int)
    requires 0 < request
    ensures BlockSize(request) % 16 == 0 && 32 <= BlockSize(request) && request + 8 <= BlockSize(request)
    ensures BlockSize(request) < Max(request, 16) + 24
  {
    var n := Max(request, 16) + 23;
    assert n / 16 * 16 <= n < n / 16 * 16 + 16;
  }

  lemma ChunkSizeFits(request: int)
    requires 0 < request
    ensures ChunkSize(BlockSize(request)) % PAGE_SIZE == 0 && 0x1_0000 <= ChunkSize(BlockSize(request))
    ensures 16 * BlockSize(request) <= ChunkSize(BlockSize(request))
    ensures ChunkSize(BlockSize(request)) < INT_LIMIT <==> request <= MAX_REQUEST
    ensures ChunkSize(BlockSize(request)) < INT_LIMIT <==> ChunkSize(BlockSize(request)) <= MAX_CHUNK
    ensures LeastBlock(request, BlockSize(request)) && LeastChunk(BlockSize(request), ChunkSize(BlockSize(request)))
  {
    hide LeastBlock, LeastChunk;
    var n := BlockSize(request);
    BlockSizeIs(request, n);
    BlockSizeFits(request);
    ChunkSizeIs(n, ChunkSize(n));
  }

  datatype MallocResult = Null | Payload(bp: int) | OutOfMemory

  // i is where the first-fit search stops: the first free block of at least n bytes, or the end.
  ghost predicate FirstFit(blk: Blocks, fl: seq<int>, n: int, i: int) {
    && 0 <= i <= |fl|
    && (forall j :: 0 <= j < i ==> fl[j] in blk && blk[fl[j]].size < n)
    && (i < |fl| ==> fl[i] in blk && blk[fl[i]].size >= n)
  }

  class Mm {
    const lib: Memlib
    var freeList: int
    ghost var blk: Blocks
    ghost var chunks: Chunks
    ghost var live: set<int>
    ghost var fl: seq<int>

    ghost predicate Mid(but: set<int>)
      reads this, lib
    {
      MidOk(lib.mem, blk, chunks, live, but, fl, freeList)
    }

    constructor (lib: Memlib)
      ensures this.lib == lib
    {
      this.lib := lib;
      freeList, blk, chunks, live, fl := 0, map[], map[], {}, [];
    }

    // The pointer writes of add_to_free_list.
    method LinkInFront(bp: int)
      requires CellsIn(lib.mem, bp) && 0 < bp < ADDRESS_LIMIT
      requires 0 <= freeList < ADDRESS_LIMIT && (freeList != 0 ==> CellsIn(lib.mem, freeList))
      modifies `freeList, lib`mem
      ensures lib.mem == Push(old(lib.mem), old(freeList), bp) && freeList == bp
    {
      if freeList == 0 {
        freeList := bp;
        lib.PutPointer(freeList, 0);
        lib.PutPointer(freeList + 8, 0);
      } else {
        lib.PutPointer(bp + 8, freeList);
        lib.PutPointer(bp, 0);
        lib.PutPointer(freeList, bp);
        freeList := bp;
      }
    }

    // add_to_free_list: the block becomes the head of a list linked both ways.
    method AddToFreeList(bp: int)
      requires CellsIn(lib.mem, bp) && 0 < bp < ADDRESS_LIMIT
      requires Links(lib.mem, fl, freeList) && Away(fl, bp)
      modifies `freeList, `fl, lib`mem
      ensures freeList == bp && fl == [bp] + old(fl)
      ensures Links(lib.mem, fl, freeList) && OnlyNodes(old(lib.mem), lib.mem, fl)
    {
      PushLinks(lib.mem, fl, freeList, bp);
      assert freeList != 0 ==> NodeOk(lib.mem, fl, 0);
      hide OnlyNodes, Away, Push;
      LinkInFront(bp);
      fl := [bp] + fl;
    }

    // The pointer writes of remove_from_free_list, whatever the cells of the block hold.
    method RelinkAround(bp: int)
      requires UnlinkReady(lib.mem, bp)
      modifies `freeList, lib`mem
      ensures lib.mem == Unlink(old(lib.mem), bp) && freeList == HeadAfter(old(lib.mem), old(freeList), bp)
    {
      hide PtrAt, PutPtr;
      if bp == freeList {
        if lib.Pointer(bp) != 0 {
          freeList := lib.Pointer(bp);
        } else if lib.Pointer(bp + 8) != 0 {
          freeList := lib.Pointer(bp + 8);
        } else {
          freeList := 0;
        }
      }
      ghost var m, prev, next := lib.mem, lib.Pointer(bp), lib.Pointer(bp + 8);
      if lib.Pointer(bp + 8) != 0 {
        lib.PutPointer(lib.Pointer(bp + 8), lib.Pointer(bp));
        WroteKeeps(m, lib.mem, next, prev, bp);
        WroteKeeps(m, lib.mem, next, prev, bp + 8);
      }
      if lib.Pointer(bp) != 0 {
        lib.PutPointer(lib.Pointer(bp) + 8, lib.Pointer(bp + 8));
      }
    }

    // remove_from_free_list: the list loses the block, wherever it is, and stays linked both ways.
    method RemoveFromFreeList(bp: int, ghost i: int)
      requires Links(lib.mem, fl, freeList) && 0 <= i < |fl| && fl[i] == bp
      modifies `freeList, `fl, lib`mem
      ensures fl == Without(old(fl), i)
      ensures Links(lib.mem, fl, freeList) && OnlyNodes(old(lib.mem), lib.mem, old(fl))
    {
      UnlinkLinks(lib.mem, fl, freeList, i);
      UnlinkCells(lib.mem, fl, freeList, i);
      hide Links, OnlyNodes, Without, UnlinkReady, Unlink, HeadAfter, HeadWithout;
      RelinkAround(bp);
      fl := Without(fl, i);
    }

    // The same inside the heap, where no other block is affected.
    method ListBlock(bp: int, ghost but: set<int>, ghost safe: set<int>)
      requires Mid(but) && bp in blk && bp !in fl && bp !in safe && forall x :: x in fl ==> x !in safe
      modifies `freeList, `fl, lib`mem
      ensures Mid(but) && fl == [bp] + old(fl) && freeList == bp
      ensures Kept(old(lib.mem), lib.mem, blk, safe) && lib.mem.Keys == old(lib.mem.Keys)
    {
      PushStart(lib.mem, blk, chunks, live, but, fl, freeList, bp);
      hide MidOk, Links, Away, OnlyNodes, CellsIn, Kept;
      AddToFreeList(bp);
      PushStep(old(lib.mem), lib.mem, blk, chunks, live, but, old(fl), old(freeList), bp, safe);
    }

    method UnlistBlock(bp: int, ghost i: int, ghost but: set<int>, ghost safe: set<int>)
      requires Mid(but) && 0 <= i < |fl| && fl[i] == bp && forall x :: x in fl ==> x !in safe
      modifies `freeList, `fl, lib`mem
      ensures Mid(but) && fl == Without(old(fl), i)
      ensures forall x :: x in fl <==> x in old(fl) && x != bp
      ensures Kept(old(lib.mem), lib.mem, blk, safe) && lib.mem.Keys == old(lib.mem.Keys)
    {
      RemoveFromFreeList(bp, i);
      hide MidOk, Links, OnlyNodes, Kept;
      UnlinkStep(old(lib.mem), lib.mem, blk, chunks, live, but, old(fl), old(freeList), i, freeList, safe);
    }

    ghost predicate Heap()
      reads this, lib
    {
      HeapOk(lib.mem, blk, chunks, live, fl, freeList)
    }

    // Header and footer of a block get the same tag.
    method WriteTags(bp: int, size: int, alloc: bool)
      requires 32 <= size < INT_LIMIT - 1 && size % 16 == 0
      requires bp - 4 in lib.mem && bp + size - 8 in lib.mem
      modifies lib`mem
      ensures lib.mem == PutTags(old(lib.mem), bp, size, alloc)
    {
      TagIsWord(size, alloc);
      hide Pack, SizeOf, AllocOf;
      lib.Put(bp - 4, Pack(size, alloc));
      lib.Put(bp + SizeOf(lib.Get(bp - 4)) - 8, Pack(size, alloc));
    }

    method SetAllocated(bp: int, size: int, ghost i: int)
      requires Heap() && 0 <= i < |fl| && fl[i] == bp && CanCarve(blk, chunks, live, bp, size)
      modifies `freeList, `fl, `blk, `live, lib`mem
      ensures Heap() && live == old(live) + {bp}
      ensures blk == Carve(old(blk), bp, size) && fl == CarveList(old(blk), old(fl), i, size)
      ensures Divided(old(blk), old(fl), i, size, blk, fl)
      ensures Kept(old(lib.mem), lib.mem, old(blk), old(live)) && lib.mem.Keys == old(lib.mem.Keys)
    {
      hide Divided;
      CarveDivides(blk, chunks, live, fl, i, size);
      ghost var blk0, live0, fl0 := blk, live, fl;
      ReadTags(lib.mem, blk, chunks, live, {}, bp);
      CarveStart(lib.mem, blk, chunks, live, fl, freeList, bp, size);
      CarveShape(blk, chunks, live, bp, size);
      var fullSize := SizeOf(lib.Get(bp - 4));
      var extraSize := fullSize - size;
      blk, live := Carve(blk, bp, size), live + {bp};
      BlockWords(lib.mem, blk, chunks, bp);
      if extraSize > 16 {
        TakeFirst(bp, size, i, {bp, bp + size}, live0);
        ReadTags(lib.mem, blk, chunks, live, {bp + size}, bp);
        var rest := bp + SizeOf(lib.Get(bp - 4));
        ghost var m2 := lib.mem;
        GiveFree(rest, extraSize, {bp + size}, live0);
        KeptTrans(old(lib.mem), m2, lib.mem, blk, live0);
        CarveEnd(old(lib.mem), blk0, chunks, live0, fl0, i, size, lib.mem, blk, freeList);
      } else {
        TakeFirst(bp, fullSize, i, {bp}, live0);
        CarveEnd(old(lib.mem), blk0, chunks, live0, fl0, i, size, lib.mem, blk, freeList);
      }
    }

    // Tag bp as allocated with the given size and take it off the free list.
    method TakeFirst(bp: int, size: int, ghost i: int, ghost but: set<int>, ghost safe: set<int>)
      requires Mid(but) && 0 <= i < |fl| && fl[i] == bp && bp in live && blk[bp].size == size
      requires forall x :: x in fl ==> x !in safe
      modifies `freeList, `fl, lib`mem
      ensures Mid(but - {bp}) && fl == Without(old(fl), i)
      ensures forall x :: x in fl <==> x in old(fl) && x != bp
      ensures Kept(old(lib.mem), lib.mem, blk, safe) && lib.mem.Keys == old(lib.mem.Keys)
    {
      BlockWords(lib.mem, blk, chunks, bp);
      WriteTagsStep(lib.mem, blk, chunks, live, but, fl, freeList, bp, safe);
      WriteTags(bp, size, true);
      UnlistBlock(bp, i, but - {bp}, safe);
      KeptTrans(old(lib.mem), PutTags(old(lib.mem), bp, size, true), lib.mem, blk, safe);
    }

    // Tag bp as free with the given size and put it at the front of the free list.
    method GiveFree(bp: int, size: int, ghost but: set<int>, ghost safe: set<int>)
      requires Mid(but) && bp in blk && bp !in live && bp !in safe && bp !in fl && blk[bp].size == size
      requires forall x :: x in fl ==> x !in safe
      modifies `freeList, `fl, lib`mem
      ensures Mid(but - {bp}) && fl == [bp] + old(fl) && freeList == bp
      ensures Kept(old(lib.mem), lib.mem, blk, safe) && lib.mem.Keys == old(lib.mem.Keys)
    {
      BlockWords(lib.mem, blk, chunks, bp);
      WriteTagsStep(lib.mem, blk, chunks, live, but, fl, freeList, bp, safe);
      WriteTags(bp, size, false);
      ListBlock(bp, but - {bp}, safe);
      KeptTrans(old(lib.mem), PutTags(old(lib.mem), bp, size, false), lib.mem, blk, safe);
    }

    ghost predicate Unlisted(bp: int)
      reads this
    {
      bp in blk && bp !in live && forall x :: x in fl <==> x in blk && x !in live && x != bp
    }

    // The neighbour tests at the start of coalesce.
    method Neighbours(bp: int) returns (prevAlloc: bool, nextAlloc: bool, ghost q: int)
      requires Mid({}) && bp in blk
      ensures prevAlloc <==> forall q' :: !LeftFree(blk, live, q', bp)
      ensures !prevAlloc ==> LeftFree(blk, live, q, bp)
      ensures nextAlloc <==> !RightFree(blk, live, bp)
    {
      q := ReadLeft(lib.mem, blk, chunks, live, bp);
      ReadRight(lib.mem, blk, chunks, live, bp);
      ReadTags(lib.mem, blk, chunks, live, {}, bp);
      LeftFreeTest(bp, q);
      var terminator := bp + SizeOf(lib.Get(bp - 4)) - 8 + 4;
      var prologue := bp - 4 - 4;
      if AllocOf(lib.Get(prologue)) && SizeOf(lib.Get(prologue)) == 8 {
        prevAlloc := true;
      } else {
        prevAlloc := AllocOf(lib.Get(bp - SizeOf(lib.Get(bp - 8)) - 4));
      }
      if AllocOf(lib.Get(terminator)) && SizeOf(lib.Get(terminator)) == 0 {
        nextAlloc := true;
      } else {
        nextAlloc := AllocOf(lib.Get(bp + SizeOf(lib.Get(bp - 4)) - 4));
      }
    }

    lemma LeftFreeTest(bp: int, q: int)
      requires Shape(blk, chunks) && bp in blk
      requires bp != blk[bp].home + 16 ==> Touches(blk, q, bp)
      ensures bp == blk[bp].home + 16 || q in live ==> forall q' :: !LeftFree(blk, live, q', bp)
      ensures bp != blk[bp].home + 16 && q !in live ==> LeftFree(blk, live, q, bp)
    {
      forall q' | LeftFree(blk, live, q', bp) ensures bp != blk[bp].home + 16 && q !in live {
        assert BlockOk(blk, chunks, q');
        if bp != blk[bp].home + 16 {
          LeftUnique(blk, chunks, q, q', bp);
        }
      }
    }

    // The free block to the right leaves the list.
    method RemoveNext(bp: int)
      requires Mid({}) && Unlisted(bp) && RightFree(blk, live, bp)
      modifies `freeList, `fl, lib`mem
      ensures Mid({}) && fl == Minus(old(fl), bp + blk[bp].size)
      ensures forall x :: x in fl <==> x in old(fl) && x != bp + blk[bp].size
      ensures Kept(old(lib.mem), lib.mem, blk, live) && lib.mem.Keys == old(lib.mem.Keys)
    {
      ReadTags(lib.mem, blk, chunks, live, {}, bp);
      var next := bp + SizeOf(lib.Get(bp - 4));
      assert BlockOk(blk, chunks, bp);
      hide Shape, Tags, TagsBut, Walls, Links, Backed;
      ghost var i := IndexIn(fl, next);
      UnlistBlock(next, i, {}, live);
    }

    // coalesce when only the right neighbour is free.
    method JoinNext(bp: int)
      requires Mid({}) && Unlisted(bp) && RightFree(blk, live, bp)
      modifies `freeList, `fl, `blk, lib`mem
      ensures Mid({}) && blk == Merge(old(blk), bp, bp + old(blk)[bp].size)
      ensures fl == [bp] + Minus(old(fl), bp + old(blk)[bp].size) && FreeExactly(fl, blk, live)
      ensures Kept(old(lib.mem), lib.mem, old(blk), live) && lib.mem.Keys == old(lib.mem.Keys)
    {
      hide Walls, Links, Backed, TagOk, BlockOk, Merge, Minus, Kept;
      ghost var r := bp + blk[bp].size;
      RightSameHome(blk, chunks, bp);
      MergeAt(blk, bp, r);
      ReadTags(lib.mem, blk, chunks, live, {}, bp);
      var size := SizeOf(lib.Get(bp - 4));
      RemoveNext(bp);
      ReadTags(lib.mem, blk, chunks, live, {}, bp);
      ReadTags(lib.mem, blk, chunks, live, {}, r);
      size := size + SizeOf(lib.Get(bp + SizeOf(lib.Get(bp - 4)) - 4));
      ghost var m1 := lib.mem;
      MergeStart(lib.mem, blk, chunks, live, {}, fl, freeList, bp, r);
      blk := Merge(blk, bp, r);
      GiveFree(bp, size, {bp}, live);
      MergeKept(m1, lib.mem, old(blk), bp, r, live);
      KeptTrans(old(lib.mem), m1, lib.mem, old(blk), live);
    }

    // coalesce when only the left neighbour is free.
    method JoinPrev(bp: int, ghost q: int) returns (r: int)
      requires Mid({}) && Unlisted(bp) && LeftFree(blk, live, q, bp)
      modifies `blk, lib`mem
      ensures Mid({}) && blk == Merge(old(blk), q, bp) && r == q
      ensures FreeExactly(fl, blk, live)
      ensures Kept(old(lib.mem), lib.mem, old(blk), live) && lib.mem.Keys == old(lib.mem.Keys)
    {
      JoinLeftStep(lib.mem, blk, chunks, live, {}, fl, freeList, q, bp);
      r := MergeTwo(bp, q);
      blk := Merge(blk, q, bp);
    }

    // The size sum and the two tag writes for two blocks.
    method MergeTwo(bp: int, ghost q: int) returns (r: int)
      requires Mid({}) && LeftFree(blk, live, q, bp)
      requires 0 <= blk[q].size + blk[bp].size < INT_LIMIT - 1
      modifies lib`mem
      ensures lib.mem == PutTags(old(lib.mem), q, blk[q].size + blk[bp].size, false)
      ensures r == q
    {
      ReadTags(lib.mem, blk, chunks, live, {}, bp);
      ReadTags(lib.mem, blk, chunks, live, {}, q);
      assert BlockOk(blk, chunks, bp) && BlockOk(blk, chunks, q);
      var size := SizeOf(lib.Get(bp - 4));
      size := size + SizeOf(lib.Get(bp - SizeOf(lib.Get(bp - 8)) - 4));
      lib.Put(bp - SizeOf(lib.Get(bp - 8)) - 4, Pack(size, false));
      lib.Put(bp + SizeOf(lib.Get(bp - 4)) - 8, Pack(size, false));
      r := bp - SizeOf(lib.Get(bp - 8));
    }

    // coalesce when both neighbours are free.
    method JoinBoth(bp: int, ghost q: int) returns (r: int)
      requires Mid({}) && Unlisted(bp) && LeftFree(blk, live, q, bp) && RightFree(blk, live, bp)
      modifies `freeList, `fl, `blk, lib`mem
      ensures Mid({}) && blk == Merge(Merge(old(blk), bp, bp + old(blk)[bp].size), q, bp) && r == q
      ensures fl == Minus(old(fl), bp + old(blk)[bp].size) && FreeExactly(fl, blk, live)
      ensures Kept(old(lib.mem), lib.mem, old(blk), live) && lib.mem.Keys == old(lib.mem.Keys)
    {
      hide Walls, Links, TagOk, BlockOk, Merge, Minus, Kept;
      ReadTags(lib.mem, blk, chunks, live, {}, bp);
      var size := SizeOf(lib.Get(bp - 4));
      RemoveNext(bp);
      ghost var m1 := lib.mem;
      r := JoinThree(bp, q, size);
      KeptTrans(old(lib.mem), m1, lib.mem, old(blk), live);
    }

    method JoinThree(bp: int, ghost q: int, bpSize: int) returns (r: int)
      requires Mid({}) && LeftFree(blk, live, q, bp) && RightFree(blk, live, bp) && bpSize == blk[bp].size
      requires bp !in live && forall x :: x in fl <==> x in blk && x !in live && x != bp && x != bp + blk[bp].size
      modifies `blk, lib`mem
      ensures Mid({}) && blk == Merge(Merge(old(blk), bp, bp + old(blk)[bp].size), q, bp) && r == q
      ensures FreeExactly(fl, blk, live)
      ensures Kept(old(lib.mem), lib.mem, old(blk), live) && lib.mem.Keys == old(lib.mem.Keys)
    {
      JoinBothStep(lib.mem, blk, chunks, live, fl, freeList, q, bp);
      r := MergeThree(bp, q, bpSize);
      blk := Merge(Merge(blk, bp, bp + blk[bp].size), q, bp);
    }

    // The size sum and the two tag writes for three blocks.
    method MergeThree(bp: int, ghost q: int, bpSize: int) returns (r: int)
      requires Mid({}) && LeftFree(blk, live, q, bp) && RightFree(blk, live, bp) && bpSize == blk[bp].size
      requires 0 <= blk[q].size + blk[bp].size + blk[bp + blk[bp].size].size < INT_LIMIT - 1
      modifies lib`mem
      ensures lib.mem == PutTags(old(lib.mem), q, blk[q].size + blk[bp].size + blk[bp + blk[bp].size].size, false)
      ensures r == q
    {
      hide Walls, Links, TagOk, SizeOf, AllocOf;
      ghost var next := bp + blk[bp].size;
      ReadTags(lib.mem, blk, chunks, live, {}, bp);
      ReadTags(lib.mem, blk, chunks, live, {}, q);
      ReadTags(lib.mem, blk, chunks, live, {}, next);
      assert BlockOk(blk, chunks, bp) && BlockOk(blk, chunks, q) && BlockOk(blk, chunks, next);
      var size := bpSize;
      size := size + SizeOf(lib.Get(bp - SizeOf(lib.Get(bp - 8)) - 4))
              + SizeOf(lib.Get(bp + SizeOf(lib.Get(bp - 4)) - 4));
      lib.Put(bp - SizeOf(lib.Get(bp - 8)) - 4, Pack(size, false));
      var n := bp + SizeOf(lib.Get(bp - 4));
      lib.Put(n + SizeOf(lib.Get(n - 4)) - 8, Pack(size, false));
      r := bp - SizeOf(lib.Get(bp - 8));
    }

    method Coalesce(bp: int) returns (r: int)
      requires Mid({}) && Unlisted(bp)
      modifies `freeList, `fl, `blk, lib`mem
      ensures Heap() && r == StartOf(old(blk), live, bp)
      ensures blk == Release(old(blk), live, bp) && fl == ReleaseList(old(blk), live, old(fl), bp)
      ensures Kept(old(lib.mem), lib.mem, old(blk), live) && lib.mem.Keys == old(lib.mem.Keys)
    {
      hide LeftFree, RightFree, Release, ReleaseList, StartOf, Merge, Minus, FreeExactly, HeapOk, Kept;
      var prevAlloc, nextAlloc;
      ghost var q;
      prevAlloc, nextAlloc, q := Neighbours(bp);
      JoinIs(blk, chunks, live, fl, bp, q, prevAlloc, nextAlloc);
      hide MidOk;
      if prevAlloc {
        JoinRight(bp, nextAlloc);
        r := bp;
      } else {
        r := JoinLeft(bp, q, nextAlloc);
      }
    }

    // coalesce when the left neighbour is not free.
    method JoinRight(bp: int, nextAlloc: bool)
      requires Mid({}) && Unlisted(bp) && (nextAlloc <==> !RightFree(blk, live, bp))
      modifies `freeList, `fl, `blk, lib`mem
      ensures Heap()
      ensures blk == (if nextAlloc then old(blk) else Merge(old(blk), bp, bp + old(blk)[bp].size))
      ensures fl == [bp] + if nextAlloc then old(fl) else Minus(old(fl), bp + old(blk)[bp].size)
      ensures Kept(old(lib.mem), lib.mem, old(blk), live) && lib.mem.Keys == old(lib.mem.Keys)
    {
      AllListed(fl, blk, live, bp);
      hide MidOk, HeapOk, Kept, Merge, Minus;
      if nextAlloc {
        ListBlock(bp, {}, live);
      } else {
        JoinNext(bp);
      }
      MidIsHeap(lib.mem, blk, chunks, live, fl, freeList);
    }

    // coalesce when the left neighbour q is free.
    method JoinLeft(bp: int, ghost q: int, nextAlloc: bool) returns (r: int)
      requires Mid({}) && Unlisted(bp) && LeftFree(blk, live, q, bp) && (nextAlloc <==> !RightFree(blk, live, bp))
      modifies `freeList, `fl, `blk, lib`mem
      ensures Heap() && r == q
      ensures blk == Merge(if nextAlloc then old(blk) else Merge(old(blk), bp, bp + old(blk)[bp].size), q, bp)
      ensures fl == if nextAlloc then old(fl) else Minus(old(fl), bp + old(blk)[bp].size)
      ensures Kept(old(lib.mem), lib.mem, old(blk), live) && lib.mem.Keys == old(lib.mem.Keys)
    {
      hide MidOk, HeapOk, Kept, Merge, Minus, FreeExactly, LeftFree, Mm.Unlisted;
      if nextAlloc {
        r := JoinPrev(bp, q);
      } else {
        r := JoinBoth(bp, q);
      }
      MidIsHeap(lib.mem, blk, chunks, live, fl, freeList);
    }

    method PageSetUp(base: int, newPageSize: int) returns (bp: int)
      requires 4096 <= newPageSize <= MAX_CHUNK && newPageSize % 16 == 0
      requires base + 4 in lib.mem && base + 8 in lib.mem && base + 12 in lib.mem
      requires base + newPageSize - 8 in lib.mem && base + newPageSize - 4 in lib.mem
      modifies lib`mem
      ensures lib.mem == SetUp(old(lib.mem), base, newPageSize) && bp == base + 16
    {
      var thisSize := newPageSize - 16;
      TagIsWord(newPageSize - 16, false);
      hide Pack, SizeOf, AllocOf;
      bp := base + 4;
      lib.Put(bp, Pack(8, true));
      bp := bp + 4;
      lib.Put(bp, Pack(8, true));
      bp := bp + 4;
      lib.Put(bp, Pack(thisSize, false));
      bp := bp + 4;
      lib.Put(bp + SizeOf(lib.Get(bp - 4)) - 8, Pack(thisSize, false));
      lib.Put(bp + SizeOf(lib.Get(bp - 4)) - 8 + 4, Pack(0, true));
    }

    // The memory system below and the pages the chunks hold.
    ghost predicate Mapped()
      reads this, lib, lib.pagemap, lib.pagemap.entries, lib.pagemap.list
    {
      lib.Valid() && ChunksMapped(lib.pagemap.Pages(), chunks) && Conserved(lib.pagemap.Pages(), chunks, blk)
    }

    ghost predicate Valid()
      reads this, lib, lib.pagemap, lib.pagemap.entries, lib.pagemap.list
    {
      Heap() && Tidy(blk, chunks, live) && Mapped()
    }

    // A region just mapped at base becomes one tagged block between its walls.
    method StartChunk(base: int, n: int, ghost m0: Memory) returns (bp: int)
      requires MidOk(m0, blk, chunks, live, {}, fl, freeList) && NewChunk(chunks, base, n)
      requires lib.mem == m0 + ZeroWords(base, n)
      modifies `blk, `chunks, lib`mem
      ensures blk == WithChunk(old(blk), base, n) && chunks == old(chunks)[base := n] && bp == base + 16
      ensures bp !in old(blk) && base !in old(chunks)
      ensures Mid({}) && Kept(m0, lib.mem, old(blk), live) && lib.mem.Keys == old(lib.mem.Keys)
    {
      hide MidOk, Kept, SetUp, WithChunk, NewChunk, ZeroWords;
      RegionReady(m0, blk, chunks, live, fl, freeList, base, n);
      lib.Put(base, Pack(0, false));
      bp := PageSetUp(base, n);
      blk, chunks := WithChunk(blk, base, n), chunks[base := n];
    }

    lemma RegionReady(m0: Memory, blk: Blocks, chunks: Chunks, live: set<int>, fl: seq<int>, head: int,
                      base: int, n: int)
      requires MidOk(m0, blk, chunks, live, {}, fl, head) && NewChunk(chunks, base, n)
      ensures 4096 <= n <= MAX_CHUNK && n % 16 == 0 && base + 16 !in blk && base !in chunks
      ensures var m := m0 + ZeroWords(base, n);
              && base in m && base + 4 in m && base + 8 in m && base + 12 in m
              && base + n - 8 in m && base + n - 4 in m
              && var out := SetUp(m[base := 0], base, n);
              && MidOk(out, WithChunk(blk, base, n), chunks[base := n], live, {}, fl, head)
              && Kept(m0, out, blk, live) && out.Keys == m.Keys
    {
      hide MidOk, SetUp, Kept;
      assert Shape(blk, chunks) by { MidShape(m0, blk, chunks, live, {}, fl, head); }
      NewChunkShape(blk, chunks, base, n);
      FirstBlockAligned(base, n);
      ChunkCells(base, n);
      var m := (m0 + ZeroWords(base, n))[base := 0];
      SetUpStep(m0, m, blk, chunks, live, fl, head, base, n);
      SetUpKeys(m, base, n);
    }

    lemma ChunkCells(c: int, n: int)
      requires ChunkOk(c, n)
      ensures forall a :: a in {c, c + 4, c + 8, c + 12, c + n - 8, c + n - 4} ==> a in ZeroWords(c, n)
    {
      hide ZeroWords;
      var x, y := 1024 * (c / 4096), 1024 * (n / 4096);
      ZeroCell(c, n, x, 0);
      ZeroCell(c, n, x, 1);
      ZeroCell(c, n, x, 2);
      ZeroCell(c, n, x, 3);
      ZeroCell(c, n, x, y - 2);
      ZeroCell(c, n, x, y - 1);
    }

    lemma ZeroCell(c: int, n: int, x: int, k: int)
      requires c == 4 * x && 0 <= 4 * k < n
      ensures c + 4 * k in ZeroWords(c, n)
    {
      assert c + 4 * k == 4 * (x + k);
    }

    // The rest of extend once the region is mapped.
    method AddChunk(base: int, n: int, ghost m0: Memory) returns (bp: int)
      requires HeapOk(m0, blk, chunks, live, fl, freeList) && NewChunk(chunks, base, n)
      requires lib.mem == m0 + ZeroWords(base, n)
      modifies `freeList, `fl, `blk, `chunks, lib`mem
      ensures blk == WithChunk(old(blk), base, n) && chunks == old(chunks)[base := n] && bp == base + 16
      ensures bp !in old(blk) && base !in old(chunks) && fl == [bp] + old(fl)
      ensures Heap() && Kept(m0, lib.mem, old(blk), live) && lib.mem.Keys == old(lib.mem.Keys)
    {
      bp := StartChunk(base, n, m0);
      ghost var m1 := lib.mem;
      ListBlock(bp, {}, live);
      WithChunkKept(m1, lib.mem, old(blk), base, n, live);
      KeptTrans(m0, m1, lib.mem, old(blk), live);
    }

    lemma SameBlocksSelf(blk: Blocks, live: set<int>)
      ensures SameBlocks(blk, blk, live)
    {
    }

    lemma WithChunkSameBlocks(was: Blocks, now: Blocks, c: int, n: int, live: set<int>)
      requires SameBlocks(WithChunk(was, c, n), now, live) && c + 16 !in was && live <= was.Keys
      ensures SameBlocks(was, now, live)
    {
    }

    lemma WithChunkKept(m: Memory, out: Memory, was: Blocks, c: int, n: int, safe: set<int>)
      requires Kept(m, out, WithChunk(was, c, n), safe) && c + 16 !in was && safe <= was.Keys
      ensures Kept(m, out, was, safe)
    {
    }

    // extend, from the region mapped for it to the block it hands out.
    method UseRegion(base: int, n: int, ghost m0: Memory, ghost pages: set<int>) returns (bp: int)
      requires HeapOk(m0, blk, chunks, live, fl, freeList) && Tidy(blk, chunks, live)
      requires ChunksMapped(pages, chunks) && Conserved(pages, chunks, blk)
      requires ChunkOk(base, n) && PageRange(base, n) !! pages
      requires lib.Valid() && lib.pagemap.Pages() == pages + PageRange(base, n)
      requires lib.mem == m0 + ZeroWords(base, n)
      modifies `freeList, `fl, `blk, `chunks, lib`mem
      ensures Mapped() && Heap() && Coalesced(blk, live) && NoIdleBut(blk, chunks, live, bp)
      ensures blk == WithChunk(old(blk), base, n) && chunks == old(chunks)[base := n] && bp == base + 16
      ensures bp !in old(blk) && base !in old(chunks) && fl == [bp] + old(fl)
      ensures Kept(m0, lib.mem, old(blk), live)
    {
      hide PageIndex.TablesOk, PageIndex.ListOk, PageIndex.PagesOf, WordsOf, PageRange, Conserved;
      hide HeapOk, Kept, Tidy, Coalesced, NoIdleBut, ChunksMapped, WithChunk, ZeroWords;
      ExtendAccount(m0, pages, blk, chunks, live, fl, freeList, base, n);
      bp := AddChunk(base, n, m0);
      SameWords(m0 + ZeroWords(base, n), lib.mem, lib.pagemap.Pages());
    }

    // Nothing a client or the system can see has changed.
    twostate predicate Untouched()
      reads this, lib, lib.pagemap
    {
      && blk == old(blk) && chunks == old(chunks) && live == old(live) && fl == old(fl) && freeList == old(freeList)
      && lib.mem == old(lib.mem) && lib.pagemap.Pages() == old(lib.pagemap.Pages()) && lib.asked == old(lib.asked)
    }

    method Extend(size: int) returns (r: MapResult)
      requires Mapped() && Heap() && Tidy(blk, chunks, live)
      requires 32 <= size && ChunkSize(size) % PAGE_SIZE == 0 && 0x1_0000 <= ChunkSize(size) <= MAX_CHUNK
      modifies `freeList, `fl, `blk, `chunks, lib, lib.pagemap, lib.pagemap.entries
      ensures Mapped() && Heap() && fresh(lib.pagemap.entries - old(lib.pagemap.entries))
      ensures r.Abort? <==> old(lib.Refuses(ChunkSize(size)))
      ensures lib.asked == old(lib.asked) + if r.Mapped? then 1 else 0
      ensures r.Abort? ==> Untouched()
      ensures r.Mapped? ==> Coalesced(blk, live) && NoIdleBut(blk, chunks, live, r.base)
      ensures r.Mapped? ==> r.base - 16 == lib.offers(old(lib.asked))
      ensures r.Mapped? ==> r.base - 16 in chunks && LeastChunk(size, chunks[r.base - 16])
      ensures r.Mapped? ==> var c := r.base - 16;
                            && c !in old(chunks) && r.base !in old(blk)
                            && chunks == old(chunks)[c := ChunkSize(size)]
                            && blk == WithChunk(old(blk), c, ChunkSize(size)) && fl == [r.base] + old(fl)
                            && lib.pagemap.Pages() == old(lib.pagemap.Pages()) + PageRange(c, ChunkSize(size))
      ensures Kept(old(lib.mem), lib.mem, old(blk), live)
    {
      hide PageIndex.TablesOk, PageIndex.ListOk, PageIndex.PagesOf, WordsOf, PageRange, Conserved;
      ChunkSizeIs(size, ChunkSize(size));
      var fitSize := Max(PAGE_SIZE, size);
      var neededSize := PageAlign(fitSize * 16);
      r := lib.MemMap(neededSize);
      if r.Abort? {
        return;
      }
      var bp := UseRegion(r.base, neededSize, old(lib.mem), old(lib.pagemap.Pages()));
      r := MapResult.Mapped(bp);
    }

    method MmInit()
      requires lib.Valid() && lib.pagemap.Pages() == {}
      modifies this
      ensures Valid() && blk == map[] && chunks == map[] && live == {} && fl == []
    {
      hide PageIndex.TablesOk, PageIndex.ListOk, PageIndex.PagesOf, WordsOf;
      freeList := 0;
      blk, chunks, live, fl := map[], map[], {}, [];
      EmptyHeap(lib.mem);
    }

    lemma EmptyHeap(m: Memory)
      ensures HeapOk(m, map[], map[], {}, [], 0) && Tidy(map[], map[], {})
      ensures ChunksMapped({}, map[]) && Conserved({}, map[], map[])
    {
      assert Sizes(map[]) == map[];
    }

    // No free block has n bytes.
    ghost predicate NoneFits(n: int)
      reads this
    {
      forall x :: x in fl ==> x in blk && blk[x].size < n
    }

    // The search loop of mm_malloc.
    method Search(newSize: int) returns (bp: int, ghost i: int)
      requires Heap()
      ensures FirstFit(blk, fl, newSize, i) && bp == (if i < |fl| then fl[i] else 0)
      ensures bp != 0 ==> bp in fl && bp in blk && newSize <= blk[bp].size
      ensures bp == 0 <==> NoneFits(newSize)
    {
      bp, i := freeList, 0;
      while bp != 0
        invariant 0 <= i <= |fl| && bp == (if i < |fl| then fl[i] else 0)
        invariant forall j :: 0 <= j < i ==> fl[j] in blk && blk[fl[j]].size < newSize
        decreases |fl| - i
      {
        assert fl[i] in fl && NodeOk(lib.mem, fl, i);
        ReadTags(lib.mem, blk, chunks, live, {}, bp);
        if !AllocOf(lib.Get(bp - 4)) && SizeOf(lib.Get(bp - 4)) >= newSize {
          return;
        }
        bp, i := lib.Pointer(bp + 8), i + 1;
      }
    }

    method Take(bp: int, size: int, ghost i: int)
      requires Heap() && 0 <= i < |fl| && fl[i] == bp && CanCarve(blk, chunks, live, bp, size)
      requires Coalesced(blk, live) && NoIdleBut(blk, chunks, live, bp) && Mapped()
      modifies `freeList, `fl, `blk, `live, lib`mem
      ensures Valid() && live == old(live) + {bp}
      ensures blk == Carve(old(blk), bp, size) && fl == CarveList(old(blk), old(fl), i, size)
      ensures Kept(old(lib.mem), lib.mem, old(blk), old(live)) && SameBlocks(old(blk), blk, old(live))
    {
      hide PageIndex.TablesOk, PageIndex.ListOk, PageIndex.PagesOf, WordsOf, PageRange, Conserved;
      CarveSameBlocks(blk, chunks, live, bp, size);
      CarveTidy(blk, chunks, live, bp, size);
      CarveAccount(lib.pagemap.Pages(), blk, chunks, live, bp, size);
      SetAllocated(bp, size, i);
      SameWords(old(lib.mem), lib.mem, lib.pagemap.Pages());
    }

    method MmMalloc(size: int) returns (r: MallocResult, ghost i: int)
      requires Valid() && 0 <= size <= MAX_REQUEST
      modifies this, lib, lib.pagemap, lib.pagemap.entries
      ensures Valid() && fresh(lib.pagemap.entries - old(lib.pagemap.entries))
      ensures r.Null? <==> size == 0
      ensures r.OutOfMemory? <==> size != 0 && old(NoneFits(BlockSize(size)) && lib.Refuses(ChunkSize(BlockSize(size))))
      ensures forall n, c :: LeastBlock(size, n) && LeastChunk(n, c) ==>
                (r.OutOfMemory? <==> size != 0 && old(NoneFits(n) && lib.Refuses(c)))
      ensures lib.asked == old(lib.asked) + if r.Payload? && old(NoneFits(BlockSize(size))) then 1 else 0
      ensures !r.Payload? ==> Untouched()
      ensures r.Payload? ==>
                && r.bp !in old(live) && live == old(live) + {r.bp} && r.bp in blk && size + 8 <= blk[r.bp].size
                && forall n :: LeastBlock(size, n) ==> Placed(n, r.bp, i)
      ensures Kept(old(lib.mem), lib.mem, old(blk), old(live)) && SameBlocks(old(blk), blk, old(live))
    {
      hide PageIndex.TablesOk, PageIndex.ListOk, PageIndex.PagesOf, WordsOf, PageRange, Conserved;
      hide HeapOk, Align, PageAlign, ChunkSize, LeastBlock, LeastChunk, Mm.Placed;
      i := 0;
      if size == 0 {
        return Null, i;
      }
      var neededSize := Max(size, 16);
      var newSize := Align(neededSize + 8);
      BlockSizeFits(size);
      ChunkSizeFits(size);
      forall n ensures LeastBlock(size, n) <==> n == newSize {
        BlockSizeIs(size, n);
      }
      forall c ensures LeastChunk(newSize, c) <==> c == ChunkSize(newSize) {
        ChunkSizeIs(newSize, c);
      }
      r, i := Serve(newSize);
    }

    // Where a request that needs a block of n bytes has been placed: in the first free block that fits, or in
    // the least chunk that will do, mapped because none does.
    twostate predicate Placed(n: int, bp: int, i: int)
      reads this, lib.pagemap
    {
      && FirstFit(old(blk), old(fl), n, i) && bp in blk && n <= blk[bp].size <= n + 16
      && if i < |old(fl)| then
           && bp == old(fl)[i] && lib.pagemap.Pages() == old(lib.pagemap.Pages())
           && PlacedInList(old(blk), old(chunks), old(fl), n, i)
         else
           && PlacedInChunk(old(blk), old(chunks), old(fl), n, bp) && bp - 16 == lib.offers(old(lib.asked))
           && lib.pagemap.Pages() == old(lib.pagemap.Pages()) + PageRange(bp - 16, chunks[bp - 16])
    }

    ghost predicate PlacedInList(was: Blocks, chunks0: Chunks, fl0: seq<int>, n: int, i: int)
      reads this
    {
      && chunks == chunks0 && 0 <= i < |fl0| && fl0[i] in was
      && Divided(was, fl0, i, n, blk, fl)
    }

    ghost predicate PlacedInChunk(was: Blocks, chunks0: Chunks, fl0: seq<int>, n: int, bp: int)
      reads this
    {
      var c := bp - 16;
      && c !in chunks0 && bp !in was && c in chunks && LeastChunk(n, chunks[c]) && chunks == chunks0[c := chunks[c]]
      && Divided(was[bp := Block(chunks[c] - 16, c)], [bp] + fl0, 0, n, blk, fl)
    }

    method Serve(newSize: int) returns (r: MallocResult, ghost i: int)
      requires Valid() && 32 <= newSize && newSize % 16 == 0
      requires ChunkSize(newSize) % PAGE_SIZE == 0 && 0x1_0000 <= ChunkSize(newSize) <= MAX_CHUNK
      requires 16 * newSize <= ChunkSize(newSize)
      modifies this, lib, lib.pagemap, lib.pagemap.entries
      ensures Valid() && fresh(lib.pagemap.entries - old(lib.pagemap.entries)) && !r.Null?
      ensures r.OutOfMemory? <==> old(NoneFits(newSize) && lib.Refuses(ChunkSize(newSize)))
      ensures lib.asked == old(lib.asked) + if r.Payload? && old(NoneFits(newSize)) then 1 else 0
      ensures r.OutOfMemory? ==> Untouched()
      ensures r.Payload? ==>
                && r.bp !in old(live) && live == old(live) + {r.bp} && r.bp in blk && newSize <= blk[r.bp].size
                && Placed(newSize, r.bp, i)
      ensures Kept(old(lib.mem), lib.mem, old(blk), old(live)) && SameBlocks(old(blk), blk, old(live))
    {
      hide PageIndex.TablesOk, PageIndex.ListOk, PageIndex.PagesOf, WordsOf, PageRange, Conserved;
      var bp;
      bp, i := Search(newSize);
      SearchHit(bp, newSize, i);
      if bp != 0 {
        TakeListed(bp, newSize, i);
        return Payload(bp), i;
      }
      r := TakeNew(newSize);
    }

    lemma SearchHit(bp: int, n: int, i: int)
      requires Heap() && FirstFit(blk, fl, n, i) && bp == (if i < |fl| then fl[i] else 0)
      ensures bp != 0 <==> i < |fl|
    {
    }

    method TakeListed(bp: int, newSize: int, ghost i: int)
      requires Valid() && 0 <= i < |fl| && bp == fl[i] && 32 <= newSize && newSize % 16 == 0
      requires FirstFit(blk, fl, newSize, i)
      modifies `freeList, `fl, `blk, `live, lib`mem
      ensures Valid() && live == old(live) + {bp} && bp !in old(live)
      ensures bp in blk && newSize <= blk[bp].size <= newSize + 16
      ensures PlacedInList(old(blk), old(chunks), old(fl), newSize, i)
      ensures Kept(old(lib.mem), lib.mem, old(blk), old(live)) && SameBlocks(old(blk), blk, old(live))
    {
      assert bp in fl;
      CarveDivides(blk, chunks, live, fl, i, newSize);
      Take(bp, newSize, i);
    }

    method TakeNew(newSize: int) returns (r: MallocResult)
      requires Valid() && 32 <= newSize && newSize % 16 == 0
      requires ChunkSize(newSize) % PAGE_SIZE == 0 && 0x1_0000 <= ChunkSize(newSize) <= MAX_CHUNK
      requires 16 * newSize <= ChunkSize(newSize)
      modifies this, lib, lib.pagemap, lib.pagemap.entries
      ensures Valid() && fresh(lib.pagemap.entries - old(lib.pagemap.entries))
      ensures if old(lib.Refuses(ChunkSize(newSize))) then r.OutOfMemory? else r.Payload?
      ensures lib.asked == old(lib.asked) + if r.Payload? then 1 else 0
      ensures r.OutOfMemory? ==> Untouched()
      ensures r.Payload? ==>
                && live == old(live) + {r.bp} && r.bp !in old(live)
                && r.bp in blk && newSize <= blk[r.bp].size <= newSize + 16
                && PlacedInChunk(old(blk), old(chunks), old(fl), newSize, r.bp)
                && r.bp - 16 == lib.offers(old(lib.asked))
                && lib.pagemap.Pages() == old(lib.pagemap.Pages()) + PageRange(r.bp - 16, chunks[r.bp - 16])
      ensures Kept(old(lib.mem), lib.mem, old(blk), old(live)) && SameBlocks(old(blk), blk, old(live))
    {
      hide PageIndex.TablesOk, PageIndex.ListOk, PageIndex.PagesOf, WordsOf, PageRange, Conserved;
      hide Tags, Walls, Links, Backed, ChunksMapped, Coalesced, NoIdleBut, Kept, SameBlocks, PageAlign, ChunkSize;
      hide Divided, LeastChunk, Carve, CarveList;
      SameBlocksSelf(blk, live);
      var m := Extend(newSize);
      if m.Abort? {
        return OutOfMemory;
      }
      ghost var m1 := lib.mem;
      ChunkSizeIs(newSize, ChunkSize(newSize));
      CarveDivides(blk, chunks, live, fl, 0, newSize);
      Take(m.base, newSize, 0);
      WithChunkKept(m1, lib.mem, old(blk), m.base - 16, ChunkSize(newSize), old(live));
      KeptTrans(old(lib.mem), m1, lib.mem, old(blk), old(live));
      WithChunkSameBlocks(old(blk), blk, m.base - 16, ChunkSize(newSize), old(live));
      r := Payload(m.base);
    }

    // The new tags of mm_free and the coalescing that follows.
    method FreeBlock(bp: int) returns (r: int)
      requires Heap() && bp in live
      modifies `freeList, `fl, `blk, `live, lib`mem
      ensures Heap() && live == old(live) - {bp} && r == StartOf(old(blk), live, bp)
      ensures blk == Release(old(blk), live, bp) && fl == ReleaseList(old(blk), live, old(fl), bp)
      ensures Kept(old(lib.mem), lib.mem, old(blk), live) && lib.mem.Keys == old(lib.mem.Keys)
    {
      ReadTags(lib.mem, blk, chunks, live, {}, bp);
      BlockWords(lib.mem, blk, chunks, bp);
      FreeStart(lib.mem, blk, chunks, live, fl, freeList, bp);
      var size := SizeOf(lib.Get(bp - 4));
      live := live - {bp};
      WriteTagsStep(lib.mem, blk, chunks, live, {bp}, fl, freeList, bp, live);
      WriteTags(bp, size, false);
      ghost var m1 := lib.mem;
      r := Coalesce(bp);
      KeptTrans(old(lib.mem), m1, lib.mem, old(blk), live);
    }

    // The test of mm_free: is the joined block its whole chunk?
    method SpansChunk(bp: int) returns (spans: bool)
      requires Heap() && bp in blk
      ensures spans <==> Spans(blk, chunks, bp)
    {
      PrologueTest(lib.mem, blk, chunks, live, bp);
      TerminatorTest(lib.mem, blk, chunks, live, bp);
      ReadTags(lib.mem, blk, chunks, live, {}, bp);
      var prologueHeader := bp - 4 - 8;
      var prologueFooter := bp - 4 - 4;
      var terminator := bp + SizeOf(lib.Get(bp - 4)) - 8 + 4;
      spans := SizeOf(lib.Get(prologueFooter)) == 8 && AllocOf(lib.Get(prologueFooter)) &&
        SizeOf(lib.Get(prologueHeader)) == 8 && AllocOf(lib.Get(prologueHeader)) &&
        AllocOf(lib.Get(terminator)) && SizeOf(lib.Get(terminator)) == 0;
    }

    // The free block bp is its whole chunk: it leaves the list and the chunk is unmapped.
    method ReturnChunk(bp: int)
      requires Heap() && Mapped() && Spans(blk, chunks, bp) && bp in fl
      requires Coalesced(blk, live) && NoIdleBut(blk, chunks, live, bp)
      modifies this, lib, lib.pagemap, lib.pagemap.entries
      ensures Valid() && fresh(lib.pagemap.entries - old(lib.pagemap.entries))
      ensures lib.asked == old(lib.asked)
      ensures var c := bp - 16;
              && blk == old(blk) - {bp} && chunks == old(chunks) - {c} && live == old(live)
              && fl == Minus(old(fl), bp)
              && lib.pagemap.Pages() == old(lib.pagemap.Pages()) - PageRange(c, old(chunks)[c])
      ensures Kept(old(lib.mem), lib.mem, old(blk), live)
    {
      hide PageIndex.TablesOk, PageIndex.ListOk, PageIndex.PagesOf, WordsOf, PageRange, Conserved;
      ghost var i := IndexIn(fl, bp);
      UnlistBlock(bp, i, {}, live);
      SameWords(old(lib.mem), lib.mem, lib.pagemap.Pages());
      ghost var m1 := lib.mem;
      UnmapChunk(bp);
      KeptTrans(old(lib.mem), m1, lib.mem, old(blk), live);
    }

    method UnmapChunk(bp: int)
      requires Mid({}) && Mapped() && Spans(blk, chunks, bp)
      requires bp !in live && forall x :: x in fl <==> x in blk && x !in live && x != bp
      requires Coalesced(blk, live) && NoIdleBut(blk, chunks, live, bp)
      modifies `blk, `chunks, lib, lib.pagemap, lib.pagemap.entries
      ensures Valid() && fresh(lib.pagemap.entries - old(lib.pagemap.entries))
      ensures lib.asked == old(lib.asked)
      ensures var c := bp - 16;
              && blk == old(blk) - {bp} && chunks == old(chunks) - {c}
              && lib.pagemap.Pages() == old(lib.pagemap.Pages()) - PageRange(c, old(chunks)[c])
      ensures Kept(old(lib.mem), lib.mem, old(blk), live)
    {
      hide PageIndex.TablesOk, PageIndex.ListOk, PageIndex.PagesOf, WordsOf, PageRange, Conserved;
      hide Walls, Links, TagOk, Kept, Coalesced, NoIdleBut, ChunksMapped;
      DropAccount(lib.pagemap.Pages(), blk, chunks, bp);
      DropTidy(blk, chunks, live, bp);
      ReadTags(lib.mem, blk, chunks, live, {}, bp);
      var firstPp := bp - 4 - 4 - 8;
      var unmapped := lib.MemUnmap(firstPp, SizeOf(lib.Get(bp - 4)) + 16);
      assert unmapped;
      DropStep(old(lib.mem), lib.mem, blk, chunks, live, fl, freeList, bp);
      blk, chunks := blk - {bp}, chunks - {firstPp};
    }

    method MmFree(bp: int)
      requires Valid() && bp in blk
      modifies this, lib, lib.pagemap, lib.pagemap.entries
      ensures Valid() && fresh(lib.pagemap.entries - old(lib.pagemap.entries))
      ensures bp !in old(live) ==> Untouched()
      ensures bp in old(live) ==> Freed(bp, old(live)) && lib.asked == old(lib.asked)
      ensures Kept(old(lib.mem), lib.mem, old(blk), live) && SameBlocks(old(blk), blk, live)
    {
      ReadTags(lib.mem, blk, chunks, live, {}, bp);
      if AllocOf(lib.Get(bp - 4)) {
        FreeLive(bp);
      }
    }

    // What freeing bp leaves of the layout, the free list and the mapped pages.
    twostate predicate Freed(bp: int, was: set<int>)
      requires bp in old(blk)
      reads this, lib, lib.pagemap
    {
      var rest := was - {bp};
      var joined, s := Release(old(blk), rest, bp), StartOf(old(blk), rest, bp);
      var list := ReleaseList(old(blk), rest, old(fl), bp);
      && live == rest
      && if Spans(joined, old(chunks), s) then
           && blk == joined - {s} && chunks == old(chunks) - {s - 16} && fl == Minus(list, s)
           && lib.pagemap.Pages() == old(lib.pagemap.Pages()) - PageRange(s - 16, old(chunks)[s - 16])
         else
           && blk == joined && chunks == old(chunks) && fl == list
           && lib.pagemap.Pages() == old(lib.pagemap.Pages())
    }

    method FreeLive(bp: int)
      requires Valid() && bp in live
      modifies this, lib, lib.pagemap, lib.pagemap.entries
      ensures Valid() && fresh(lib.pagemap.entries - old(lib.pagemap.entries))
      ensures lib.asked == old(lib.asked)
      ensures Freed(bp, old(live)) && Kept(old(lib.mem), lib.mem, old(blk), live) && SameBlocks(old(blk), blk, live)
    {
      hide PageIndex.TablesOk, PageIndex.ListOk, PageIndex.PagesOf, WordsOf, PageRange, Conserved;
      hide Tags, Walls, Links, Backed, Coalesced, NoIdleBut, ChunksMapped, Release, ReleaseList, StartOf, Kept;
      ReleaseAccount(lib.mem, lib.pagemap.Pages(), blk, chunks, live, fl, freeList, bp);
      var s := FreeBlock(bp);
      SameWords(old(lib.mem), lib.mem, lib.pagemap.Pages());
      ghost var m1 := lib.mem;
      Settle(s);
      ReleaseKept(m1, lib.mem, old(blk), old(chunks), live, bp);
      ReleaseSameBlocks(old(blk), old(chunks), live, bp);
      KeptTrans(old(lib.mem), m1, lib.mem, old(blk), live);
    }

    // The end of mm_free: a block that is its whole chunk goes back to the system.
    method Settle(s: int)
      requires Heap() && Mapped() && s in fl && Coalesced(blk, live) && NoIdleBut(blk, chunks, live, s)
      modifies this, lib, lib.pagemap, lib.pagemap.entries
      ensures Valid() && fresh(lib.pagemap.entries - old(lib.pagemap.entries))
      ensures live == old(live) && lib.asked == old(lib.asked)
      ensures if Spans(old(blk), old(chunks), s) then
                && blk == old(blk) - {s} && chunks == old(chunks) - {s - 16} && fl == Minus(old(fl), s)
                && lib.pagemap.Pages() == old(lib.pagemap.Pages()) - PageRange(s - 16, old(chunks)[s - 16])
              else
                && blk == old(blk) && chunks == old(chunks) && fl == old(fl)
                && lib.pagemap.Pages() == old(lib.pagemap.Pages())
      ensures Kept(old(lib.mem), lib.mem, old(blk), live)
    {
      hide PageIndex.TablesOk, PageIndex.ListOk, PageIndex.PagesOf, WordsOf, PageRange, Conserved;
      var spans := SpansChunk(s);
      if spans {
        ReturnChunk(s);
      }
    }

    // The client's side: any byte may be stored anywhere in a live payload.
    method ClientStore(p: int, a: int, b: int)
      requires Valid() && p in live && p in blk && p <= a < p + blk[p].size - 8 && 0 <= b < 256
      requires WordOf(a) in lib.mem
      modifies lib`mem
      ensures Valid() && WordOf(a) in old(lib.mem) && lib.mem == PutByte(old(lib.mem), a, b)
      ensures Kept(old(lib.mem), lib.mem, blk, live - {p})
    {
      hide PageIndex.TablesOk, PageIndex.ListOk, PageIndex.PagesOf, WordsOf;
      BlockWords(lib.mem, blk, chunks, p);
      WordInside(p, a);
      WordWithByte(lib.mem[WordOf(a)], a % 4, b);
      var v := WithByte(lib.mem[WordOf(a)], a % 4, b);
      StoreKeepsHeap(lib.mem, blk, chunks, live, fl, freeList, p, WordOf(a), v);
      lib.Put(WordOf(a), v);
      SameWords(old(lib.mem), lib.mem, lib.pagemap.Pages());
    }

    // memset(p, b, n)
    method Memset(p: int, b: int, n: int)
      requires Valid() && p in live && p in blk && 0 <= n && n + 8 <= blk[p].size && 0 <= b < 256
      modifies lib`mem
      ensures Valid() && Filled(lib.mem, p, n, b)
      ensures Kept(old(lib.mem), lib.mem, blk, live - {p})
    {
      var i := 0;
      while i < n
        invariant 0 <= i <= n && Valid() && Filled(lib.mem, p, i, b)
        invariant Kept(old(lib.mem), lib.mem, blk, live - {p})
      {
        ghost var m := lib.mem;
        PayloadWord(lib.mem, blk, chunks, p, p + i);
        ClientStore(p, p + i, b);
        FillOne(m, p, i, b);
        KeptTrans(old(lib.mem), m, lib.mem, blk, live - {p});
        i := i + 1;
      }
    }

    lemma FillOne(m: Memory, p: int, i: int, b: int)
      requires Filled(m, p, i, b) && 0 <= i && WordOf(p + i) in m && 0 <= b < 256
      ensures Filled(PutByte(m, p + i, b), p, i + 1, b)
    {
      var out := PutByte(m, p + i, b);
      forall a | p <= a < p + i + 1 ensures WordOf(a) in out && ByteAt(out, a) == b {
        PutByteAt(m, p + i, b, a);
      }
    }
  }
}
