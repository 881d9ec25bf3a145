/** Process memory as the allocator addresses it: 4-byte words, 8-byte pointers, boundary tags. */
module Words {
  const WORD := 0x1_0000_0000
  const INT_LIMIT := 0x8000_0000
  const ADDRESS_LIMIT := 0x1_0000_0000_0000_0000
  const PAGE_SIZE := 4096
  // mmap places regions in the lower half of the canonical 48-bit addresses.
  const USER_LIMIT := 0x8000_0000_0000

  type Word = w: int | 0 <= w < WORD
  // Words by address; exactly the mapped, 4-aligned addresses are in the domain.
  type Memory = map<int, Word>

  function Pack(size: int, alloc: bool): int {
    if alloc then size + 1 else size
  }

  function SizeOf(word: int): int { word - word % 8 }

  predicate AllocOf(word: int) { word % 2 == 1 }

  lemma PackRoundTrip(size: int, alloc: bool)
    requires size % 8 == 0
    ensures SizeOf(Pack(size, alloc)) == size && AllocOf(Pack(size, alloc)) == alloc
  {
  }

  // A tag is a word, from which its size and bit are read.
  lemma TagIsWord(size: int, alloc: bool)
    requires 0 <= size < INT_LIMIT - 1 && size % 16 == 0
    ensures 0 <= Pack(size, alloc) < WORD
    ensures SizeOf(Pack(size, alloc)) == size && AllocOf(Pack(size, alloc)) == alloc
  {
    assert size == 8 * (size / 16 * 2);
    PackRoundTrip(size, alloc);
  }

  lemma Times16(k: int)
    ensures 16 * k % 16 == 0
  {
  }

  // An 8-byte pointer is two little-endian words.
  function PtrAt(m: Memory, a: int): int
    requires a in m && a + 4 in m
  {
    m[a] + WORD * m[a + 4]
  }

  function PutPtr(m: Memory, a: int, v: int): Memory
    requires 0 <= v < ADDRESS_LIMIT
  {
    m[a := v % WORD][a + 4 := v / WORD]
  }

  // out is m with the pointer cell at a set to v.
  ghost predicate Wrote(m: Memory, out: Memory, a: int, v: int) {
    && a in m && a + 4 in m && out.Keys == m.Keys && PtrAt(out, a) == v
    && forall x :: x in m && x != a && x != a + 4 ==> out[x] == m[x]
  }

  // Pointer cells elsewhere, and what is mapped, stay as they are.
  lemma WroteKeeps(m: Memory, out: Memory, a: int, v: int, x: int)
    requires Wrote(m, out, a, v) && x in m && x + 4 in m
    ensures x in out && x + 4 in out
    ensures x + 8 <= a || a + 8 <= x ==> PtrAt(out, x) == PtrAt(m, x)
    ensures x == a ==> PtrAt(out, x) == v
  {
  }

  lemma PutPtrWrites(m: Memory, a: int, v: int)
    requires a in m && a + 4 in m && 0 <= v < ADDRESS_LIMIT
    ensures Wrote(m, PutPtr(m, a, v), a, v)
  {
  }

  // The page addresses of an n-byte region at p.
  ghost function PageRange(p: int, n: int): set<int> {
    if n <= 0 then {} else PageRange(p, n - PAGE_SIZE) + {p + n - PAGE_SIZE}
  }

  ghost predicate Paged(n: int) { 0 <= n && n % PAGE_SIZE == 0 }

  lemma {:induction false} PageInRange(p: int, n: int, a: int)
    requires Paged(p) && Paged(n)
    ensures a in PageRange(p, n) <==> p <= a < p + n && a % PAGE_SIZE == 0
  {
    if n > 0 {
      PageInRange(p, n - PAGE_SIZE, a);
    }
  }

  lemma {:induction false} PageRangeSize(p: int, n: int)
    requires Paged(p) && Paged(n)
    ensures PAGE_SIZE * |PageRange(p, n)| == n
  {
    if n > 0 {
      PageRangeSize(p, n - PAGE_SIZE);
      PageInRange(p, n - PAGE_SIZE, p + n - PAGE_SIZE);
    }
  }

  function PageOf(a: int): int { a - a % PAGE_SIZE }

  ghost predicate IsWord(pages: set<int>, a: int) {
    a % 4 == 0 && a - a % PAGE_SIZE in pages
  }

  ghost predicate WordsOf(m: Memory, pages: set<int>) {
    forall a {:trigger IsWord(pages, a)} :: IsWord(pages, a) <==> a in m
  }

  lemma SameWords(m: Memory, out: Memory, pages: set<int>)
    requires WordsOf(m, pages) && out.Keys == m.Keys
    ensures WordsOf(out, pages)
  {
  }

  ghost predicate UserPage(pages: set<int>, a: int) {
    a in pages ==> 0 < a < USER_LIMIT && a % PAGE_SIZE == 0
  }

  ghost predicate UserPages(pages: set<int>) {
    forall a {:trigger UserPage(pages, a)} :: UserPage(pages, a)
  }

  lemma UserPagesGrow(pages: set<int>, p: int, n: int)
    requires UserPages(pages) && Paged(p) && Paged(n) && 0 < p && p + n <= USER_LIMIT
    ensures UserPages(pages + PageRange(p, n))
  {
    var more := pages + PageRange(p, n);
    forall a ensures UserPage(more, a) {
      assert UserPage(pages, a);
      PageInRange(p, n, a);
    }
  }

  lemma UserPagesShrink(pages: set<int>, less: set<int>)
    requires UserPages(pages) && less <= pages
    ensures UserPages(less)
  {
    forall a ensures UserPage(less, a) {
      assert UserPage(pages, a);
    }
  }

  lemma {:induction false} PagesBelow(pages: set<int>, n: nat)
    requires UserPages(pages) && forall a :: a in pages ==> a < PAGE_SIZE * (n + 1)
    ensures |pages| <= n
  {
    if n == 0 {
      assert forall a | a in pages :: UserPage(pages, a);
      assert forall a | a in pages :: a in {};
    } else {
      var top := PAGE_SIZE * n;
      var rest := pages - {top};
      UserPagesShrink(pages, rest);
      forall a | a in rest ensures a < top {
        assert UserPage(pages, a);
      }
      PagesBelow(rest, n - 1);
    }
  }

  // All the pages mmap can hand out are fewer than 2^47 bytes.
  lemma UserPagesBound(pages: set<int>)
    requires UserPages(pages)
    ensures PAGE_SIZE * |pages| < USER_LIMIT
  {
    forall a | a in pages ensures a < PAGE_SIZE * (0x7_FFFF_FFFF + 1) {
      assert UserPage(pages, a);
    }
    PagesBelow(pages, 0x7_FFFF_FFFF);
  }
}
