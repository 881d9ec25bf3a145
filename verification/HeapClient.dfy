/** Whole runs of the allocator: any program that asks for memory, gives it back and stores bytes in what it has. */
module HeapClient {
  import opened Words
  import opened HeapShape
  import opened HeapMemory
  import opened HeapState
  import opened HeapTheorems
  import opened Bytes
  import opened Allocator
  import PageIndex
  import HeapAccount
  import opened Sums
  import opened MemoryBridge

  // A handle is the number of the malloc that returned the payload.
  datatype Request = Malloc(size: int) | Free(h: nat) | Store(h: nat, at: int, b: int)

  // The sizes asked for so far, one for each handle.
  function Sizes(rs: seq<Request>): seq<int> {
    if rs == [] then []
    else
      var n := |rs| - 1;
      Sizes(rs[..n]) + if rs[n].Malloc? then [rs[n].size] else []
  }

  ghost predicate Alive(rs: seq<Request>, h: nat) {
    h < |Sizes(rs)| && Sizes(rs)[h] != 0 && Free(h) !in rs
  }

  datatype Stored = Nothing | Byte(b: int)

  // The byte stored last at this place of the handle's payload.
  function Last(rs: seq<Request>, h: nat, at: int): Stored {
    if rs == [] then Nothing
    else
      var n := |rs| - 1;
      match rs[n]
      case Store(g, x, b) => if g == h && x == at then Byte(b) else Last(rs[..n], h, at)
      case _ => Last(rs[..n], h, at)
  }

  // What a program may ask: it frees and writes only what it has, within the size it asked for.
  ghost predicate May(rs: seq<Request>, r: Request) {
    match r
    case Malloc(size) => 0 <= size <= MAX_REQUEST
    case Free(h) => Alive(rs, h)
    case Store(h, at, b) => Alive(rs, h) && 0 <= at < Sizes(rs)[h] && 0 <= b < 256
  }

  ghost predicate Legal(rs: seq<Request>) {
    forall i :: 0 <= i < |rs| ==> May(rs[..i], rs[i])
  }

  // ------------------------------------------------------ one more request

  lemma {:induction false} LegalPrefix(rs: seq<Request>, n: nat)
    requires Legal(rs) && n <= |rs|
    ensures Legal(rs[..n])
  {
    forall i | 0 <= i < n ensures May(rs[..n][..i], rs[..n][i]) {
      assert rs[..n][..i] == rs[..i];
    }
  }

  lemma {:induction false} SizesStep(rs: seq<Request>, r: Request)
    ensures Sizes(rs + [r]) == Sizes(rs) + if r.Malloc? then [r.size] else []
  {
    assert (rs + [r])[..|rs|] == rs;
  }

  lemma {:induction false} LastStep(rs: seq<Request>, r: Request, h: nat, at: int)
    ensures Last(rs + [r], h, at) == if r.Store? && r.h == h && r.at == at then Byte(r.b) else Last(rs, h, at)
  {
    assert (rs + [r])[..|rs|] == rs;
  }

  // Nothing is said of a handle before it is given out.
  lemma {:induction false} HandlesKnown(rs: seq<Request>, h: nat)
    requires Legal(rs) && |Sizes(rs)| <= h
    ensures Free(h) !in rs && forall at :: Last(rs, h, at) == Nothing
  {
    hide Legal;
    if rs != [] {
      var n := |rs| - 1;
      LegalPrefix(rs, n);
      assert rs == rs[..n] + [rs[n]];
      SizesStep(rs[..n], rs[n]);
      LegalLast(rs);
      HandlesKnown(rs[..n], h);
    }
  }

  lemma {:induction false} LegalLast(rs: seq<Request>)
    requires Legal(rs) && rs != []
    ensures May(rs[..|rs| - 1], rs[|rs| - 1])
  {
  }

  lemma {:induction false} AliveStep(rs: seq<Request>, r: Request, h: nat)
    requires Legal(rs)
    ensures Alive(rs + [r], h) <==>
            if r.Malloc? && h == |Sizes(rs)| then r.size != 0 else Alive(rs, h) && r != Free(h)
  {
    SizesStep(rs, r);
    if h == |Sizes(rs)| { HandlesKnown(rs, h); }
  }

  // ------------------------------------------------------- what is in the heap

  // A payload the program has: live, big enough, and with every stored byte in its place.
  ghost predicate Has(m: Memory, blk: Blocks, live: set<int>, p: int, rs: seq<Request>, h: nat)
    requires h < |Sizes(rs)|
  {
    && p in live && p in blk && p % 16 == 0 && Sizes(rs)[h] + 8 <= blk[p].size
    && forall at {:trigger Last(rs, h, at)} ::
         Last(rs, h, at).Byte? ==> Holds(m, p, Sizes(rs)[h], at, Last(rs, h, at).b)
  }

  ghost predicate Holds(m: Memory, p: int, size: int, at: int, b: int) {
    0 <= at < size && WordOf(p + at) in m && ByteAt(m, p + at) == b
  }

  ghost predicate HasAll(m: Memory, blk: Blocks, live: set<int>, where: seq<int>, rs: seq<Request>) {
    |where| == |Sizes(rs)| && forall h :: 0 <= h < |where| && Alive(rs, h) ==> Has(m, blk, live, where[h], rs, h)
  }

  // Different handles have different payloads, and no payload is live but theirs.
  ghost predicate OneEach(live: set<int>, where: seq<int>, rs: seq<Request>) {
    && (forall h, g :: 0 <= h < |where| && 0 <= g < |where| && h != g && Alive(rs, h) && Alive(rs, g) ==>
          where[h] != where[g])
    && (forall p :: p in live ==> exists h :: 0 <= h < |where| && Alive(rs, h) && where[h] == p)
  }

  lemma {:induction false} HoldsOn(m: Memory, out: Memory, blk: Blocks, live: set<int>, p: int, size: int,
                                   at: int, b: int)
    requires Kept(m, out, blk, live) && p in live && p in blk && p % 16 == 0 && size + 8 <= blk[p].size
    requires Holds(m, p, size, at, b)
    ensures Holds(out, p, size, at, b)
  {
    WordInside(p, p + at);
    assert InPayload(blk, live, WordOf(p + at));
  }

  // A request that leaves a payload alone leaves the program what it has there.
  lemma {:induction false} HasOn(m: Memory, out: Memory, blk: Blocks, now: Blocks, live: set<int>, after: set<int>,
                                 p: int, rs: seq<Request>, r: Request, h: nat)
    requires h < |Sizes(rs)| && Has(m, blk, live, p, rs, h) && !(r.Store? && r.h == h)
    requires Kept(m, out, blk, after) && SameBlocks(blk, now, after) && p in after
    ensures h < |Sizes(rs + [r])| && Has(out, now, after, p, rs + [r], h)
  {
    SizesStep(rs, r);
    forall at | Last(rs + [r], h, at).Byte? ensures Holds(out, p, Sizes(rs)[h], at, Last(rs + [r], h, at).b) {
      LastStep(rs, r, h, at);
      HoldsOn(m, out, blk, after, p, Sizes(rs)[h], at, Last(rs, h, at).b);
    }
  }

  lemma {:induction false} NewHas(m: Memory, blk: Blocks, live: set<int>, p: int, rs: seq<Request>, size: int)
    requires Legal(rs) && p in live && p in blk && p % 16 == 0 && size + 8 <= blk[p].size
    ensures |Sizes(rs + [Malloc(size)])| == |Sizes(rs)| + 1
    ensures Has(m, blk, live, p, rs + [Malloc(size)], |Sizes(rs)|)
  {
    var r, h := Malloc(size), |Sizes(rs)|;
    SizesStep(rs, r);
    HandlesKnown(rs, h);
    forall at ensures Last(rs + [r], h, at) == Nothing {
      LastStep(rs, r, h, at);
    }
  }

  lemma {:induction false} StoreHas(m: Memory, blk: Blocks, live: set<int>, p: int, rs: seq<Request>, h: nat,
                                    at: int, b: int)
    requires h < |Sizes(rs)| && Has(m, blk, live, p, rs, h)
    requires 0 <= at < Sizes(rs)[h] && 0 <= b < 256 && WordOf(p + at) in m
    ensures h < |Sizes(rs + [Store(h, at, b)])|
    ensures Has(PutByte(m, p + at, b), blk, live, p, rs + [Store(h, at, b)], h)
  {
    var r, out := Store(h, at, b), PutByte(m, p + at, b);
    SizesStep(rs, r);
    forall x | Last(rs + [r], h, x).Byte? ensures Holds(out, p, Sizes(rs)[h], x, Last(rs + [r], h, x).b) {
      LastStep(rs, r, h, x);
      if x == at {
        PutByteAt(m, p + at, b, p + at);
      } else {
        assert Holds(m, p, Sizes(rs)[h], x, Last(rs, h, x).b);
        PutByteAt(m, p + at, b, p + x);
      }
    }
  }

  // ---------------------------------------------------------- the three requests

  lemma {:induction false} MallocStep(m: Memory, out: Memory, blk: Blocks, now: Blocks, live: set<int>,
                                      where: seq<int>, rs: seq<Request>, size: int, p: int)
    requires Legal(rs) && HasAll(m, blk, live, where, rs) && OneEach(live, where, rs) && size != 0
    requires Kept(m, out, blk, live) && SameBlocks(blk, now, live)
    requires p !in live && p in now && p % 16 == 0 && size + 8 <= now[p].size
    ensures HasAll(out, now, live + {p}, where + [p], rs + [Malloc(size)])
    ensures OneEach(live + {p}, where + [p], rs + [Malloc(size)])
  {
    hide Has, Kept, SameBlocks, Alive, Last;
    var r, after, places := Malloc(size), live + {p}, where + [p];
    SizesStep(rs, r);
    forall h: nat ensures Alive(rs + [r], h) <==> h == |where| || Alive(rs, h) {
      AliveStep(rs, r, h);
      if h == |where| && Alive(rs, h) { AliveKnown(rs, h); }
    }
    forall h | 0 <= h < |places| && Alive(rs + [r], h) ensures Has(out, now, after, places[h], rs + [r], h) {
      if h == |where| {
        NewHas(out, now, after, p, rs, size);
      } else {
        HasLive(m, blk, live, where[h], rs, h);
        HasOn(m, out, blk, now, live, live, where[h], rs, r, h);
        HasMore(out, now, live, after, where[h], rs + [r], h);
      }
    }
    forall q | q in after ensures exists h :: 0 <= h < |places| && Alive(rs + [r], h) && places[h] == q {
      if q == p {
        assert places[|where|] == p;
      } else {
        var h :| 0 <= h < |where| && Alive(rs, h) && where[h] == q;
        assert places[h] == q;
      }
    }
    forall h | 0 <= h < |where| && Alive(rs, h) ensures where[h] != p {
      HasLive(m, blk, live, where[h], rs, h);
    }
  }

  lemma {:induction false} AliveKnown(rs: seq<Request>, h: nat)
    requires Alive(rs, h)
    ensures h < |Sizes(rs)|
  {
  }

  lemma {:induction false} HasLive(m: Memory, blk: Blocks, live: set<int>, p: int, rs: seq<Request>, h: nat)
    requires h < |Sizes(rs)| && Has(m, blk, live, p, rs, h)
    ensures p in live && p in blk
  {
  }

  lemma {:induction false} HasMore(m: Memory, blk: Blocks, live: set<int>, more: set<int>, p: int, rs: seq<Request>,
                                   h: nat)
    requires h < |Sizes(rs)| && Has(m, blk, live, p, rs, h) && live <= more
    ensures Has(m, blk, more, p, rs, h)
  {
  }

  // malloc(0) returns no payload.
  lemma {:induction false} NullStep(m: Memory, blk: Blocks, live: set<int>, where: seq<int>, rs: seq<Request>)
    requires Legal(rs) && HasAll(m, blk, live, where, rs) && OneEach(live, where, rs)
    ensures HasAll(m, blk, live, where + [0], rs + [Malloc(0)]) && OneEach(live, where + [0], rs + [Malloc(0)])
  {
    hide Has, Alive, Last;
    var r, places := Malloc(0), where + [0];
    SizesStep(rs, r);
    forall h: nat ensures Alive(rs + [r], h) <==> h < |where| && Alive(rs, h) {
      AliveStep(rs, r, h);
      if Alive(rs, h) { AliveKnown(rs, h); }
    }
    forall h | 0 <= h < |where| && Alive(rs, h) ensures Has(m, blk, live, places[h], rs + [r], h) {
      HasLive(m, blk, live, where[h], rs, h);
      assert Kept(m, m, blk, live) && SameBlocks(blk, blk, live);
      HasOn(m, m, blk, blk, live, live, where[h], rs, r, h);
    }
    forall q | q in live ensures exists h :: 0 <= h < |places| && Alive(rs + [r], h) && places[h] == q {
      var h :| 0 <= h < |where| && Alive(rs, h) && where[h] == q;
      assert places[h] == q;
    }
  }

  lemma {:induction false} FreeStep(m: Memory, out: Memory, blk: Blocks, now: Blocks, live: set<int>,
                                    where: seq<int>, rs: seq<Request>, g: nat)
    requires Legal(rs) && HasAll(m, blk, live, where, rs) && OneEach(live, where, rs) && g < |where| && Alive(rs, g)
    requires Kept(m, out, blk, live - {where[g]}) && SameBlocks(blk, now, live - {where[g]})
    ensures HasAll(out, now, live - {where[g]}, where, rs + [Free(g)])
    ensures OneEach(live - {where[g]}, where, rs + [Free(g)])
  {
    hide Has, Kept, SameBlocks, Alive, Last;
    var r, after := Free(g), live - {where[g]};
    SizesStep(rs, r);
    forall h: nat ensures Alive(rs + [r], h) <==> h != g && Alive(rs, h) {
      AliveStep(rs, r, h);
    }
    forall h | 0 <= h < |where| && Alive(rs + [r], h) ensures Has(out, now, after, where[h], rs + [r], h) {
      HasLive(m, blk, live, where[h], rs, h);
      HasOn(m, out, blk, now, live, after, where[h], rs, r, h);
    }
    forall q | q in after ensures exists h :: 0 <= h < |where| && Alive(rs + [r], h) && where[h] == q {
      var h :| 0 <= h < |where| && Alive(rs, h) && where[h] == q;
      assert h != g;
    }
  }

  lemma {:induction false} StoreStep(m: Memory, out: Memory, blk: Blocks, live: set<int>,
                                     where: seq<int>, rs: seq<Request>, g: nat, at: int, b: int)
    requires Legal(rs) && HasAll(m, blk, live, where, rs) && OneEach(live, where, rs) && g < |where| && Alive(rs, g)
    requires 0 <= at < Sizes(rs)[g] && 0 <= b < 256 && WordOf(where[g] + at) in m
    requires out == PutByte(m, where[g] + at, b) && Kept(m, out, blk, live - {where[g]})
    ensures HasAll(out, blk, live, where, rs + [Store(g, at, b)]) && OneEach(live, where, rs + [Store(g, at, b)])
  {
    hide Has, Kept, Alive, Last, PutByte;
    var r, rest := Store(g, at, b), live - {where[g]};
    SizesStep(rs, r);
    forall h: nat ensures Alive(rs + [r], h) <==> Alive(rs, h) {
      AliveStep(rs, r, h);
    }
    forall h | 0 <= h < |where| && Alive(rs + [r], h) ensures Has(out, blk, live, where[h], rs + [r], h) {
      if h == g {
        StoreHas(m, blk, live, where[g], rs, g, at, b);
      } else {
        HasLive(m, blk, live, where[h], rs, h);
        HasOn(m, out, blk, blk, live, rest, where[h], rs, r, h);
        HasMore(out, blk, rest, live, where[h], rs + [r], h);
      }
    }
    forall q | q in live ensures exists h :: 0 <= h < |where| && Alive(rs + [r], h) && where[h] == q {
      var h :| 0 <= h < |where| && Alive(rs, h) && where[h] == q;
    }
  }

  // -------------------------------------------------------------- whole runs

  class Client {
    const mm: Mm
    // The pointer each malloc returned.
    var where: seq<int>

    // The heap is sound and holds what the requests so far have left in it.
    ghost predicate After(rs: seq<Request>)
      reads this, mm, mm.lib, mm.lib.pagemap, mm.lib.pagemap.entries, mm.lib.pagemap.list
    {
      && mm.Valid() && Legal(rs)
      && HasAll(mm.lib.mem, mm.blk, mm.live, where, rs) && OneEach(mm.live, where, rs)
    }

    constructor (mm: Mm)
      ensures this.mm == mm && where == []
    {
      this.mm, where := mm, [];
    }

    method Malloc(size: int, ghost rs: seq<Request>) returns (ok: bool)
      requires After(rs) && 0 <= size <= MAX_REQUEST
      modifies `where, mm, mm.lib, mm.lib.pagemap, mm.lib.pagemap.entries
      ensures fresh(mm.lib.pagemap.entries - old(mm.lib.pagemap.entries))
      ensures After(if ok then rs + [Request.Malloc(size)] else rs)
      ensures ok <==> size == 0 || !old(mm.NoneFits(BlockSize(size)) && mm.lib.Refuses(ChunkSize(BlockSize(size))))
      ensures !ok ==> mm.Untouched() && where == old(where)
    {
      hide PageIndex.TablesOk, PageIndex.ListOk, PageIndex.PagesOf, WordsOf, PageRange, HeapAccount.Conserved;
      hide HeapOk, Kept, SameBlocks, HasAll, OneEach, Legal, Mm.Placed;
      ghost var i;
      var r;
      r, i := mm.MmMalloc(size);
      ok := !r.OutOfMemory?;
      match r
      case OutOfMemory =>
      case Null =>
        NullStep(mm.lib.mem, mm.blk, mm.live, where, rs);
        LegalMore(rs, Request.Malloc(0));
        where := where + [0];
      case Payload(p) =>
        PayloadAligned(p);
        MallocStep(old(mm.lib.mem), mm.lib.mem, old(mm.blk), mm.blk, old(mm.live), where, rs, size, p);
        LegalMore(rs, Request.Malloc(size));
        where := where + [p];
    }

    lemma PayloadAligned(p: int)
      requires mm.Heap() && p in mm.blk
      ensures p % 16 == 0
    {
      BlockWords(mm.lib.mem, mm.blk, mm.chunks, p);
    }

    method Free(h: nat, ghost rs: seq<Request>)
      requires After(rs) && Alive(rs, h)
      modifies mm, mm.lib, mm.lib.pagemap, mm.lib.pagemap.entries
      ensures fresh(mm.lib.pagemap.entries - old(mm.lib.pagemap.entries))
      ensures After(rs + [Request.Free(h)])
    {
      hide PageIndex.TablesOk, PageIndex.ListOk, PageIndex.PagesOf, WordsOf, PageRange, HeapAccount.Conserved;
      hide HeapOk, Kept, SameBlocks, OneEach, Legal;
      assert h < |where|;
      mm.MmFree(where[h]);
      FreeStep(old(mm.lib.mem), mm.lib.mem, old(mm.blk), mm.blk, old(mm.live), where, rs, h);
      LegalMore(rs, Request.Free(h));
    }

    method Store(h: nat, at: int, b: int, ghost rs: seq<Request>)
      requires After(rs) && Alive(rs, h) && 0 <= at < Sizes(rs)[h] && 0 <= b < 256
      modifies mm.lib`mem
      ensures After(rs + [Request.Store(h, at, b)])
    {
      hide PageIndex.TablesOk, PageIndex.ListOk, PageIndex.PagesOf, WordsOf, PageRange, HeapAccount.Conserved;
      hide OneEach, Legal;
      assert h < |where|;
      var p := where[h];
      PayloadWord(mm.lib.mem, mm.blk, mm.chunks, p, p + at);
      hide HeapOk, Kept;
      mm.ClientStore(p, p + at, b);
      StoreStep(old(mm.lib.mem), mm.lib.mem, mm.blk, mm.live, where, rs, h, at, b);
      LegalMore(rs, Request.Store(h, at, b));
    }

    // Any program: the heap stays sound, every payload it has keeps every byte it stored there last, and the
    // only thing that can stop it is a malloc for which no free block fits and mmap has no region.
    method Run(rs: seq<Request>) returns (done: nat)
      requires mm.Valid() && mm.live == {} && where == [] && Legal(rs)
      modifies `where, mm, mm.lib, mm.lib.pagemap, mm.lib.pagemap.entries
      ensures done <= |rs| && After(rs[..done])
      ensures done < |rs| ==> var r := rs[done];
                r.Malloc? && mm.NoneFits(BlockSize(r.size)) && mm.lib.Refuses(ChunkSize(BlockSize(r.size)))
      ensures (forall h :: !Alive(rs[..done], h)) ==> mm.blk == map[] && mm.lib.pagemap.Pages() == {}
    {
      hide PageIndex.TablesOk, PageIndex.ListOk, PageIndex.PagesOf, WordsOf, PageRange, HeapAccount.Conserved;
      hide HeapOk, HasAll, OneEach, Alive;
      NothingYet();
      done := 0;
      while done < |rs|
        invariant done <= |rs| && After(rs[..done])
        invariant fresh(mm.lib.pagemap.entries - old(mm.lib.pagemap.entries))
      {
        assert rs[..done + 1] == rs[..done] + [rs[done]];
        assert May(rs[..done], rs[done]);
        match rs[done] {
          case Malloc(size) =>
            var ok := Malloc(size, rs[..done]);
            if !ok { break; }
          case Free(h) => Free(h, rs[..done]);
          case Store(h, at, b) => Store(h, at, b, rs[..done]);
        }
        done := done + 1;
      }
      AllGivenBack(rs[..done]);
    }

    lemma NothingYet()
      requires mm.Valid() && mm.live == {} && where == []
      ensures After([])
    {
    }

    // Once every payload has been given back, so has all memory.
    lemma AllGivenBack(rs: seq<Request>)
      requires After(rs)
      ensures (forall h :: !Alive(rs, h)) ==> mm.blk == map[] && mm.lib.pagemap.Pages() == {}
    {
      if forall h :: !Alive(rs, h) {
        NoMembers(mm.live);
        BalancedHeapIsEmpty(mm.lib.mem, mm.lib.pagemap.Pages(), mm.blk, mm.chunks, mm.live, mm.fl, mm.freeList);
      }
    }
  }

  lemma {:induction false} LegalMore(rs: seq<Request>, r: Request)
    requires Legal(rs) && May(rs, r)
    ensures Legal(rs + [r])
  {
    forall i | 0 <= i <= |rs| ensures May((rs + [r])[..i], (rs + [r])[i]) {
      assert (rs + [r])[..i] == rs[..i];
      assert rs[..|rs|] == rs;
    }
  }
}
