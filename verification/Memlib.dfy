/** The bridge to mmap of memlib.c: page-granular mapping with tracking. */
module MemoryBridge {
  import opened Words
  import opened PageIndex

  datatype MapResult = Mapped(base: int) | Abort

  // What mmap promises of the region it returns.
  ghost predicate FreshRegion(pages: set<int>, p: int, n: int) {
    && 0 < p && Paged(p) && p + n <= USER_LIMIT
    && PageRange(p, n) !! pages
  }

  // mem_heapsize multiplies two ints and widens the product to size_t.
  function HeapSizeOf(pageCount: int): int {
    var product := PAGE_SIZE * pageCount % WORD;
    if product < INT_LIMIT then product else product - WORD + ADDRESS_LIMIT
  }

  lemma HeapSizeExact(pageCount: int)
    requires 0 <= pageCount < INT_LIMIT
    ensures HeapSizeOf(pageCount) == PAGE_SIZE * pageCount <==> pageCount < 0x8_0000
  {
  }

  // Otherwise it is the mapped size reduced to 32 bits, as an int, as a 64-bit size_t.
  lemma HeapSizeWraps(pageCount: int)
    ensures var r := HeapSizeOf(pageCount);
            && (r - 4096 * pageCount) % 0x1_0000_0000 == 0
            && (0 <= r < 0x8000_0000 || 0xFFFF_FFFF_8000_0000 <= r < 0x1_0000_0000_0000_0000)
  {
  }

  lemma NextPage(p: int, i: int, n: int)
    requires Paged(p) && Paged(i) && i < n && Paged(n)
    ensures Paged(i + PAGE_SIZE) && i + PAGE_SIZE <= n && Paged(p + i)
    ensures p + i in PageRange(p, n) && p + i !in PageRange(p, i)
    ensures PageRange(p, i + PAGE_SIZE) == PageRange(p, i) + {p + i}
  {
    PageInRange(p, n, p + i);
    PageInRange(p, i, p + i);
  }

  // A region that is mapped up to i loses its next page, unless that is not mapped.
  lemma OnePageLess(pages: set<int>, p: int, i: int, n: int)
    requires Paged(p) && Paged(i) && i < n && Paged(n) && PageRange(p, i) <= pages
    ensures pages - PageRange(p, i) - {p + i} == pages - PageRange(p, i + PAGE_SIZE)
    ensures p + i in pages - PageRange(p, i) <==> PageRange(p, i + PAGE_SIZE) <= pages
    ensures p + i !in pages ==> !(PageRange(p, n) <= pages)
  {
    NextPage(p, i, n);
    hide PageRange;
  }

  lemma NoPages(p: int)
    ensures PageRange(p, 0) == {} && Paged(0)
  {
  }

  lemma PageOfRange(p: int, n: int, a: int)
    requires Paged(p) && Paged(n)
    ensures a - a % PAGE_SIZE in PageRange(p, n) <==> p <= a < p + n
  {
    var x, y, z := p / PAGE_SIZE, n / PAGE_SIZE, a / PAGE_SIZE;
    PageInRange(p, n, PAGE_SIZE * z);
    assert p == PAGE_SIZE * x && n == PAGE_SIZE * y && PAGE_SIZE * z <= a < PAGE_SIZE * (z + 1);
  }

  function ZeroWords(p: int, n: int): Memory {
    map a | p <= a < p + n && a % 4 == 0 :: 0
  }

  function WithoutRegion(m: Memory, p: int, n: int): Memory {
    map a | a in m && !(p <= a < p + n) :: m[a]
  }

  // A mapped region reads as zero, word by word; unmapping takes its words away and no other.
  lemma RegionWords(m: Memory, p: int, n: int)
    ensures forall a :: a in ZeroWords(p, n) <==> p <= a < p + n && a % 4 == 0
    ensures forall a :: a in ZeroWords(p, n) ==> ZeroWords(p, n)[a] == 0
    ensures forall a :: a in WithoutRegion(m, p, n) <==> a in m && !(p <= a < p + n)
    ensures forall a :: a in WithoutRegion(m, p, n) ==> WithoutRegion(m, p, n)[a] == m[a]
  {
  }

  lemma MapKeepsWords(m: Memory, pages: set<int>, p: int, n: int)
    requires WordsOf(m, pages) && Paged(p) && Paged(n)
    ensures WordsOf(m + ZeroWords(p, n), pages + PageRange(p, n))
  {
    var out, more := m + ZeroWords(p, n), pages + PageRange(p, n);
    forall a ensures IsWord(more, a) <==> a in out {
      assert IsWord(pages, a) <==> a in m;
      PageOfRange(p, n, a);
    }
  }

  lemma UnmapKeepsWords(m: Memory, pages: set<int>, p: int, n: int)
    requires WordsOf(m, pages) && Paged(p) && Paged(n)
    ensures WordsOf(WithoutRegion(m, p, n), pages - PageRange(p, n))
  {
    var out, less := WithoutRegion(m, p, n), pages - PageRange(p, n);
    forall a ensures IsWord(less, a) <==> a in out {
      assert IsWord(pages, a) <==> a in m;
      PageOfRange(p, n, a);
    }
  }

  class Memlib {
    const pagemap: Pagemap
    var mem: Memory
    var pageCount: int
    var activityCounter: int
    // The regions the system offers, one a call, whatever they are; those it has given so far.
    const offers: nat -> int
    var asked: nat

    ghost predicate Valid()
      reads this, pagemap, pagemap.entries, pagemap.list
    {
      pagemap.Valid() && pageCount == |pagemap.Pages()| && WordsOf(mem, pagemap.Pages()) && UserPages(pagemap.Pages())
    }

    constructor (offers: nat -> int)
      ensures Valid() && pagemap.Pages() == {} && mem == map[]
      ensures this.offers == offers && asked == 0
      ensures fresh(pagemap) && fresh(pagemap.entries)
    {
      this.offers := offers;
      pagemap := new Pagemap();
      mem, pageCount, activityCounter, asked := map[], 0, 0, 0;
    }

    // The system refuses n bytes: the region it would offer next is not one that mmap may return.
    ghost predicate Refuses(n: int)
      reads this, pagemap
    {
      !FreshRegion(pagemap.Pages(), offers(asked), n)
    }

    // No page of the region is mapped yet.
    method IsFree(p: int, n: int) returns (free: bool)
      requires Valid() && 0 < p && Paged(p) && 0 < n && Paged(n) && p + n <= USER_LIMIT
      ensures free <==> PageRange(p, n) !! pagemap.Pages()
    {
      hide PageIndex.TablesOk, PageIndex.ListOk, PageIndex.PagesOf, PageRange;
      var i := 0;
      assert PageRange(p, 0) == {} by { NoPages(p); }
      while i < n
        invariant 0 <= i <= n && Paged(i)
        invariant PageRange(p, i) !! pagemap.Pages()
      {
        NextPage(p, i, n);
        var taken := pagemap.IsMapped(p + i);
        if taken {
          assert p + i in PageRange(p, n) && p + i in pagemap.Pages();
          return false;
        }
        i := i + PAGE_SIZE;
      }
      free := true;
    }

    // mmap: the region offered next, unless the system refuses.
    method Mmap(n: int) returns (r: MapResult)
      requires Valid() && 0 < n && Paged(n)
      modifies `asked
      ensures Valid()
      ensures if old(Refuses(n)) then r == Abort && asked == old(asked)
              else r == Mapped(offers(old(asked))) && asked == old(asked) + 1
    {
      hide PageIndex.TablesOk, PageIndex.ListOk, PageIndex.PagesOf, PageRange;
      var p := offers(asked);
      if p <= 0 || p % PAGE_SIZE != 0 || USER_LIMIT < p + n {
        return Abort;
      }
      var free := IsFree(p, n);
      if !free {
        return Abort;
      }
      r := Mapped(p);
      asked := asked + 1;
    }

    ghost predicate Counted()
      reads this, pagemap, pagemap.entries, pagemap.list
    {
      pagemap.Valid() && pageCount == |pagemap.Pages()|
    }

    method MapPage(a: int)
      requires Counted() && 0 < a < ADDRESS_LIMIT && Paged(a) && a !in pagemap.Pages()
      modifies `pageCount, pagemap, pagemap.entries
      ensures Counted() && fresh(pagemap.entries - old(pagemap.entries))
      ensures pagemap.Pages() == old(pagemap.Pages()) + {a}
    {
      var inserted := pagemap.Insert(a);
      assert inserted;
      pageCount := pageCount + 1;
    }

    // The page loop of mem_map.
    method MapPages(p: int, sz: int)
      requires Counted() && 0 < sz && Paged(sz) && FreshRegion(pagemap.Pages(), p, sz)
      modifies `pageCount, pagemap, pagemap.entries
      ensures Counted() && fresh(pagemap.entries - old(pagemap.entries))
      ensures pagemap.Pages() == old(pagemap.Pages()) + PageRange(p, sz)
    {
      hide PageIndex.TablesOk, PageIndex.ListOk, PageIndex.PagesOf, PageRange, Paged;
      NoPages(p);
      ghost var pages := pagemap.Pages();
      var i := 0;
      while i < sz
        invariant 0 <= i <= sz && Paged(i)
        invariant Counted() && fresh(pagemap.entries - old(pagemap.entries))
        invariant pagemap.Pages() == pages + PageRange(p, i)
      {
        NextPage(p, i, sz);
        MapPage(p + i);
        i := i + PAGE_SIZE;
      }
    }

    method UnmapPage(a: int) returns (ok: bool)
      requires Counted() && 0 < a < ADDRESS_LIMIT && Paged(a)
      modifies `pageCount, pagemap, pagemap.entries
      ensures Counted() && fresh(pagemap.entries - old(pagemap.entries))
      ensures ok <==> a in old(pagemap.Pages())
      ensures pagemap.Pages() == old(pagemap.Pages()) - {a}
    {
      var mapped := pagemap.IsMapped(a);
      if !mapped {
        return false;
      }
      ok := pagemap.Remove(a);
      pageCount := pageCount - 1;
    }

    // The page loop of mem_unmap.
    method UnmapPages(p: int, sz: int) returns (ok: bool)
      requires Counted() && 0 < p && Paged(p) && Paged(sz) && p + sz <= ADDRESS_LIMIT
      modifies `pageCount, pagemap, pagemap.entries
      ensures Counted() && fresh(pagemap.entries - old(pagemap.entries))
      ensures ok <==> PageRange(p, sz) <= old(pagemap.Pages())
      ensures ok ==> pagemap.Pages() == old(pagemap.Pages()) - PageRange(p, sz)
    {
      hide PageIndex.TablesOk, PageIndex.ListOk, PageIndex.PagesOf, PageRange;
      NoPages(p);
      ghost var pages := pagemap.Pages();
      var i := 0;
      while i < sz
        invariant 0 <= i <= sz && Paged(i)
        invariant Counted() && fresh(pagemap.entries - old(pagemap.entries))
        invariant PageRange(p, i) <= pages
        invariant pagemap.Pages() == pages - PageRange(p, i)
      {
        NextPage(p, i, sz);
        OnePageLess(pages, p, i, sz);
        ok := UnmapPage(p + i);
        if !ok {
          return;
        }
        i := i + PAGE_SIZE;
      }
      ok := true;
    }

    method MemMap(sz: int) returns (r: MapResult)
      requires Valid() && 0 < sz
      modifies this, pagemap, pagemap.entries
      ensures Valid() && fresh(pagemap.entries - old(pagemap.entries))
      ensures r.Mapped? <==> Paged(sz) && !old(Refuses(sz))
      ensures asked == old(asked) + if r.Mapped? then 1 else 0
      ensures r.Mapped? ==>
                && r.base == offers(old(asked)) && FreshRegion(old(pagemap.Pages()), r.base, sz)
                && pagemap.Pages() == old(pagemap.Pages()) + PageRange(r.base, sz)
                && mem == old(mem) + ZeroWords(r.base, sz)
      ensures r.Abort? ==> pagemap.Pages() == old(pagemap.Pages()) && mem == old(mem)
    {
      hide PageIndex.TablesOk, PageIndex.ListOk, PageIndex.PagesOf, PageRange, ZeroWords, WordsOf, UserPages;
      if sz % PAGE_SIZE != 0 {
        return Abort;
      }
      activityCounter := activityCounter + 1;
      r := Mmap(sz);
      if r.Abort? {
        return;
      }
      MapPages(r.base, sz);
      MapKeepsWords(mem, old(pagemap.Pages()), r.base, sz);
      UserPagesGrow(old(pagemap.Pages()), r.base, sz);
      mem := mem + ZeroWords(r.base, sz);
    }

    // ok is false where the source reports an error and aborts.
    method MemUnmap(p: int, sz: int) returns (ok: bool)
      requires Valid() && 0 < p && 0 <= sz && p + sz <= ADDRESS_LIMIT
      modifies this, pagemap, pagemap.entries
      ensures fresh(pagemap.entries - old(pagemap.entries))
      ensures ok <==> Paged(p) && Paged(sz) && PageRange(p, sz) <= old(pagemap.Pages())
      ensures ok ==>
                && Valid() && pagemap.Pages() == old(pagemap.Pages()) - PageRange(p, sz)
                && mem == WithoutRegion(old(mem), p, sz)
      ensures asked == old(asked)
    {
      hide PageIndex.TablesOk, PageIndex.ListOk, PageIndex.PagesOf;
      if p % PAGE_SIZE != 0 || sz % PAGE_SIZE != 0 {
        return false;
      }
      ok := UnmapPages(p, sz);
      if ok {
        UnmapKeepsWords(mem, old(pagemap.Pages()), p, sz);
        UserPagesShrink(old(pagemap.Pages()), pagemap.Pages());
        mem := WithoutRegion(mem, p, sz);
      }
    }

    // mem_reset: every page still mapped goes back to the system.
    method MemReset() returns (unmapped: seq<int>)
      requires Valid()
      modifies this, pagemap, pagemap.entries
      ensures Valid() && fresh(pagemap.entries - old(pagemap.entries))
      ensures pagemap.Pages() == {} && pageCount == 0 && mem == map[] && asked == old(asked)
      ensures Once(unmapped, old(pagemap.Pages())) && |unmapped| == old(pageCount)
    {
      unmapped := pagemap.ForEach();
      pageCount := 0;
      activityCounter := 0;
      mem := map[];
    }

    method MemHeapSize() returns (r: int)
      requires Valid()
      ensures r == HeapSizeOf(|pagemap.Pages()|)
    {
      var product := PAGE_SIZE * pageCount % WORD;
      r := if product < INT_LIMIT then product else product - WORD + ADDRESS_LIMIT;
    }

    function Get(a: int): Word
      requires a in mem
      reads this
    {
      mem[a]
    }

    method Put(a: int, val: Word)
      requires a in mem
      modifies `mem
      ensures mem == old(mem)[a := val]
    {
      mem := mem[a := val];
    }

    function Pointer(a: int): int
      requires a in mem && a + 4 in mem
      reads this
    {
      PtrAt(mem, a)
    }

    method PutPointer(a: int, val: int)
      requires a in mem && a + 4 in mem && 0 <= val < ADDRESS_LIMIT
      modifies `mem
      ensures mem == PutPtr(old(mem), a, val) && Wrote(old(mem), mem, a, val)
    {
      PutPtrWrites(mem, a, val);
      mem := PutPtr(mem, a, val);
    }
  }
}
