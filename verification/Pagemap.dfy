/** The page index of pagemap.c: a three-level table whose entries are threaded
    on a doubly linked list of the mapped pages. */
module PageIndex {
  import opened Words

  const LEVEL1_SIZE := 0x1_0000
  const LEVEL2_SIZE := 0x1_0000
  const LEVEL3_SIZE := 0x10_0000

  function Level1Bits(p: int): int { p / 0x1_0000_0000_0000 }
  function Level2Bits(p: int): int { p / 0x1_0000_0000 % LEVEL2_SIZE }
  function Level3Bits(p: int): int { p / PAGE_SIZE % LEVEL3_SIZE }

  ghost function PageNumber(i: int, j: int, k: int): int {
    i * 0x10_0000_0000 + j * 0x10_0000 + k
  }

  ghost predicate InRange(i: int, j: int, k: int) {
    0 <= i < LEVEL1_SIZE && 0 <= j < LEVEL2_SIZE && 0 <= k < LEVEL3_SIZE
  }

  // The three index macros together are the page number: no two pages share an entry.
  lemma BitsArePageNumber(p: int)
    requires 0 <= p < ADDRESS_LIMIT
    ensures InRange(Level1Bits(p), Level2Bits(p), Level3Bits(p))
    ensures PageNumber(Level1Bits(p), Level2Bits(p), Level3Bits(p)) == p / PAGE_SIZE
  {
    var q := p / PAGE_SIZE;
    assert p / 0x1_0000_0000 == q / 0x10_0000;
    assert p / 0x1_0000_0000_0000 == q / 0x10_0000 / 0x1_0000;
  }

  lemma PageNumberInjective(i: int, j: int, k: int, i': int, j': int, k': int)
    requires InRange(i, j, k) && InRange(i', j', k')
    requires PageNumber(i, j, k) == PageNumber(i', j', k')
    ensures i == i' && j == j' && k == k'
  {
  }

  class MPage {
    var addr: int
    var prev: MPage?
    var next: MPage?
    // Where in the three tables the entry lies.
    ghost const i: int
    ghost const j: int
    ghost const k: int

    ghost const number := PageNumber(i, j, k)

    constructor Zeroed(ghost i: int, ghost j: int, ghost k: int)
      ensures this.i == i && this.j == j && this.k == k && addr == 0 && prev == null && next == null
    {
      this.i, this.j, this.k := i, j, k;
      addr, prev, next := 0, null, null;
    }
  }

  // An empty sequence stands for a table that has not been allocated.
  type Tables = seq<seq<seq<MPage>>>

  ghost predicate At(maps: Tables, e: MPage) {
    0 <= e.i < |maps| && 0 <= e.j < |maps[e.i]| && 0 <= e.k < |maps[e.i][e.j]| && maps[e.i][e.j][e.k] == e
  }

  ghost predicate SizesOk(maps: Tables) {
    && (maps == [] || |maps| == LEVEL1_SIZE)
    && (forall i :: 0 <= i < |maps| ==> maps[i] == [] || |maps[i]| == LEVEL2_SIZE)
    && (forall i, j :: 0 <= i < |maps| && 0 <= j < |maps[i]| ==> maps[i][j] == [] || |maps[i][j]| == LEVEL3_SIZE)
  }

  ghost predicate Slot(e: MPage, i: int, j: int, k: int) {
    e.i == i && e.j == j && e.k == k
  }

  ghost predicate TablesOk(maps: Tables, entries: set<MPage>) {
    && SizesOk(maps)
    && (forall i, j, k :: 0 <= i < |maps| && 0 <= j < |maps[i]| && 0 <= k < |maps[i][j]| ==>
          maps[i][j][k] in entries && Slot(maps[i][j][k], i, j, k))
    && (forall e :: e in entries ==> At(maps, e))
  }

  ghost predicate Distinct(list: seq<MPage>) {
    forall i, j :: 0 <= i < j < |list| ==> list[i] != list[j]
  }

  ghost predicate Threaded(list: seq<MPage>, i: int)
    requires 0 <= i < |list|
    reads list[i]
  {
    && list[i].prev == (if i == 0 then null else list[i - 1])
    && list[i].next == (if i + 1 == |list| then null else list[i + 1])
  }

  // The list holds the entries whose address is set, each once, threaded both ways.
  ghost predicate ListOk(list: seq<MPage>, entries: set<MPage>)
    reads entries, list
  {
    && Distinct(list)
    && (forall e :: e in list ==> e in entries && 0 < e.addr < ADDRESS_LIMIT && e.addr == e.number * PAGE_SIZE)
    && (forall i :: 0 <= i < |list| ==> Threaded(list, i))
    && (forall e :: e in entries && e.addr != 0 ==> e in list)
  }

  ghost function Remaining(list: seq<MPage>, at: int): seq<MPage>
    requires 0 <= at < |list|
  {
    list[..at] + list[at + 1..]
  }

  lemma AddTable(maps: Tables, entries: set<MPage>, i: int, j: int, table: seq<MPage>)
    requires TablesOk(maps, entries) && 0 <= i < |maps| && 0 <= j < |maps[i]| && maps[i][j] == []
    requires |table| == LEVEL3_SIZE && forall k :: 0 <= k < |table| ==> Slot(table[k], i, j, k)
    ensures TablesOk(maps[i := maps[i][j := table]], entries + set e | e in table)
  {
    var out, all := maps[i := maps[i][j := table]], entries + set e | e in table;
    forall e | e in all ensures At(out, e) {
      if e in entries { assert At(maps, e); }
    }
  }

  lemma RemainingDistinct(list: seq<MPage>, at: int)
    requires Distinct(list) && 0 <= at < |list|
    ensures Distinct(Remaining(list, at))
    ensures forall e :: e in Remaining(list, at) <==> e in list && e != list[at]
  {
  }

  lemma {:induction false} FrontDistinct(list: seq<MPage>, e: MPage)
    requires Distinct(list) && e !in list
    ensures Distinct([e] + list)
  {
    var all := [e] + list;
    forall i, j | 0 <= i < j < |all| ensures all[i] != all[j] {
      assert all[j] == list[j - 1];
    }
  }

  lemma SameNumber(maps: Tables, entries: set<MPage>, e: MPage, x: MPage)
    requires TablesOk(maps, entries) && e in entries && x in entries && e.number == x.number
    ensures e == x
  {
  }

  ghost function PagesOf(list: seq<MPage>): set<int> {
    set e | e in list :: e.number * PAGE_SIZE
  }

  lemma PagesRemaining(maps: Tables, entries: set<MPage>, list: seq<MPage>, at: int)
    requires TablesOk(maps, entries) && Distinct(list) && 0 <= at < |list|
    requires forall e :: e in list ==> e in entries
    ensures PagesOf(Remaining(list, at)) == PagesOf(list) - {list[at].number * PAGE_SIZE}
  {
    RemainingDistinct(list, at);
    assert list[at] in list;
    forall e | e in list && e != list[at] ensures e.number != list[at].number {
      if e.number == list[at].number {
        SameNumber(maps, entries, e, list[at]);
      }
    }
  }

  ghost function Addresses(list: seq<MPage>): seq<int> {
    seq(|list|, i requires 0 <= i < |list| => list[i].number * PAGE_SIZE)
  }

  // The walk of pagemap_for_each: visited are the addresses of the front of the list, and `list` is left.
  ghost predicate Walked(was: seq<MPage>, list: seq<MPage>, visited: seq<int>) {
    |visited| <= |was| && list == was[|visited|..] && visited == Addresses(was[..|visited|])
  }

  lemma WalkStarts(was: seq<MPage>)
    ensures Walked(was, was, []) && PagesOf([]) == {}
  {
  }

  lemma WalkStep(was: seq<MPage>, list: seq<MPage>, visited: seq<int>)
    requires Walked(was, list, visited) && list != []
    ensures Walked(was, list[1..], visited + [list[0].number * PAGE_SIZE])
  {
    assert was[..|visited| + 1] == was[..|visited|] + [list[0]];
  }

  lemma WalkEnds(was: seq<MPage>, list: seq<MPage>, visited: seq<int>)
    requires Walked(was, list, visited) && list == []
    ensures visited == Addresses(was) && |visited| == |was|
  {
    assert was[..|visited|] == was;
  }

  // The addresses name each page of the set, and none of them twice.
  ghost predicate Once(addresses: seq<int>, pages: set<int>) {
    && (forall i, j :: 0 <= i < j < |addresses| ==> addresses[i] != addresses[j])
    && (forall a :: a in addresses <==> a in pages)
  }

  lemma {:induction false} EachPageOnce(maps: Tables, entries: set<MPage>, list: seq<MPage>)
    requires TablesOk(maps, entries) && Distinct(list) && forall e :: e in list ==> e in entries
    ensures Once(Addresses(list), PagesOf(list)) && |PagesOf(list)| == |list|
  {
    var all := Addresses(list);
    forall i, j | 0 <= i < j < |all| ensures all[i] != all[j] {
      if all[i] == all[j] {
        assert list[i] in list && list[j] in list;
        SameNumber(maps, entries, list[i], list[j]);
      }
    }
    forall a | a in PagesOf(list) ensures a in all {
      var e :| e in list && e.number * PAGE_SIZE == a;
      var i :| 0 <= i < |list| && list[i] == e;
      assert all[i] == a;
    }
    AsManyPages(maps, entries, list);
  }

  lemma {:induction false} AsManyPages(maps: Tables, entries: set<MPage>, list: seq<MPage>)
    requires TablesOk(maps, entries) && Distinct(list) && forall e :: e in list ==> e in entries
    ensures |PagesOf(list)| == |list|
  {
    if list == [] {
      assert PagesOf(list) == {};
    } else {
      assert Remaining(list, 0) == list[1..];
      PagesRemaining(maps, entries, list, 0);
      assert list[0] in list && list[0].number * PAGE_SIZE in PagesOf(list);
      forall e | e in list[1..] ensures e in entries { assert e in list; }
      AsManyPages(maps, entries, list[1..]);
    }
  }

  class Pagemap {
    var allMappedPages: MPage?
    var pageMaps1: Tables
    ghost var entries: set<MPage>
    ghost var list: seq<MPage>

    ghost predicate Valid()
      reads this, entries, list
    {
      && TablesOk(pageMaps1, entries)
      && ListOk(list, entries)
      && allMappedPages == (if list == [] then null else list[0])
    }

    // The mapped pages, by address.
    ghost function Pages(): set<int>
      reads this
    {
      PagesOf(list)
    }

    constructor ()
      ensures Valid() && Pages() == {} && fresh(entries)
    {
      allMappedPages, pageMaps1, entries, list := null, [], {}, [];
    }

    // calloc of a last-level table.
    method CallocLevel3(ghost i: int, ghost j: int) returns (table: seq<MPage>)
      ensures |table| == LEVEL3_SIZE
      ensures forall k :: 0 <= k < |table| ==>
        fresh(table[k]) && Slot(table[k], i, j, k) && table[k].addr == 0
    {
      table := [];
      while |table| < LEVEL3_SIZE
        invariant |table| <= LEVEL3_SIZE
        invariant forall k :: 0 <= k < |table| ==>
          fresh(table[k]) && Slot(table[k], i, j, k) && table[k].addr == 0
      {
        var e := new MPage.Zeroed(i, j, |table|);
        table := table + [e];
      }
    }

    method EnsureLevel1()
      requires Valid()
      modifies `pageMaps1
      ensures Valid() && pageMaps1 != []
    {
      if |pageMaps1| == 0 {
        pageMaps1 := seq(LEVEL1_SIZE, _ => []);
      }
    }

    method EnsureLevel2(i: int)
      requires Valid() && 0 <= i < |pageMaps1|
      modifies `pageMaps1
      ensures Valid() && |pageMaps1| == LEVEL1_SIZE && pageMaps1[i] != []
    {
      if |pageMaps1[i]| == 0 {
        pageMaps1 := pageMaps1[i := seq(LEVEL2_SIZE, _ => [])];
      }
    }

    method EnsureLevel3(i: int, j: int)
      requires Valid() && 0 <= i < |pageMaps1| && 0 <= j < |pageMaps1[i]|
      modifies `pageMaps1, `entries
      ensures Valid() && fresh(entries - old(entries)) && old(entries) <= entries
      ensures |pageMaps1| == LEVEL1_SIZE && |pageMaps1[i]| == LEVEL2_SIZE && |pageMaps1[i][j]| == LEVEL3_SIZE
    {
      if |pageMaps1[i][j]| == 0 {
        var table := CallocLevel3(i, j);
        hide Distinct, Threaded;
        AddTable(pageMaps1, entries, i, j, table);
        assert forall e :: e in table ==> fresh(e) && e.addr == 0;
        hide TablesOk, Slot;
        pageMaps1 := pageMaps1[i := pageMaps1[i][j := table]];
        entries := entries + set e | e in table;
      }
    }

    // The walk down the three tables, allocating the missing ones.
    method Locate(p: int) returns (page: MPage)
      requires Valid() && 0 <= p < ADDRESS_LIMIT
      modifies `pageMaps1, `entries
      ensures Valid() && fresh(entries - old(entries)) && old(entries) <= entries
      ensures page in entries && page.number == p / PAGE_SIZE
    {
      BitsArePageNumber(p);
      EnsureLevel1();
      EnsureLevel2(Level1Bits(p));
      EnsureLevel3(Level1Bits(p), Level2Bits(p));
      page := pageMaps1[Level1Bits(p)][Level2Bits(p)][Level3Bits(p)];
    }

    // An entry's address is set exactly when its page is in the set.
    lemma EntryMapped(e: MPage)
      requires Valid() && e in entries
      ensures e.addr != 0 <==> e in list
      ensures e in list <==> e.number * PAGE_SIZE in Pages()
    {
      if e.number * PAGE_SIZE in Pages() {
        var x :| x in list && x.number * PAGE_SIZE == e.number * PAGE_SIZE;
        SameNumber(pageMaps1, entries, e, x);
      }
    }

    // pagemap_modify, mapping: the entry becomes the head of the list.
    method LinkFront(page: MPage, p: int)
      requires Valid() && page in entries && page.addr == 0
      requires 0 < p < ADDRESS_LIMIT && p == page.number * PAGE_SIZE
      modifies `allMappedPages, `list, entries
      ensures Valid() && list == [page] + old(list)
    {
      assert page !in list;
      assert list != [] ==> list[0] in list;
      FrontDistinct(list, page);
      hide TablesOk, Distinct;
      page.addr := p;
      page.prev := null;
      page.next := allMappedPages;
      if allMappedPages != null {
        allMappedPages.prev := page;
      }
      allMappedPages := page;
      ghost var was := list;
      list := [page] + list;
      forall i | 0 <= i < |list| ensures Threaded(list, i) {
        assert i > 0 ==> was[i - 1] in was && old(Threaded(was, i - 1));
      }
    }

    // pagemap_modify, unmapping: the entry leaves the list, wherever it is.
    method Unlink(page: MPage, ghost at: int)
      requires Valid() && 0 <= at < |list| && list[at] == page
      modifies `allMappedPages, `list, entries
      ensures Valid() && list == Remaining(old(list), at)
      ensures page.next == old(page.next)
    {
      hide TablesOk;
      CutOut(page, at);
      ghost var was := list;
      list := Remaining(list, at);
      forall i | 0 <= i < |list| ensures Threaded(list, i) {
        var t := if i < at then i else i + 1;
        assert list[i] == was[t] && old(Threaded(was, t)) && old(Threaded(was, at));
      }
      assert old(ListOk(was, entries));
      RemainingDistinct(was, at);
      hide Threaded, Distinct;
    }

    // Its pointer writes.
    method CutOut(page: MPage, ghost at: int)
      requires 0 <= at < |list| && list[at] == page && Distinct(list) && page in entries
      requires forall e :: e in list ==> e in entries
      requires forall i :: 0 <= i < |list| ==> Threaded(list, i)
      requires allMappedPages == list[0]
      modifies `allMappedPages, entries
      ensures Spliced(list, at) && page.addr == 0 && page.next == old(page.next)
      ensures forall e :: e in entries && e != page ==> e.addr == old(e.addr)
      ensures allMappedPages == (if at > 0 then list[0] else if |list| > 1 then list[1] else null)
    {
      assert Threaded(list, at);
      page.addr := 0;
      if page.prev != null {
        page.prev.next := page.next;
      } else {
        allMappedPages := page.next;
      }
      if page.next != null {
        page.next.prev := page.prev;
      }
    }

    // The neighbours of the entry at this place point past it, and nothing else points elsewhere than before.
    twostate predicate Spliced(was: seq<MPage>, at: int)
      requires 0 <= at < |was|
      reads was
    {
      forall i :: 0 <= i < |was| && i != at ==>
        && was[i].next == (if i + 1 == at then old(was[at].next) else old(was[i].next))
        && was[i].prev == (if i == at + 1 then old(was[at].prev) else old(was[i].prev))
    }

    // A page joins the map; ok is false where the source aborts because it is there.
    method Insert(p: int) returns (ok: bool)
      requires Valid() && 0 < p < ADDRESS_LIMIT && p % PAGE_SIZE == 0
      modifies this, entries
      ensures Valid() && fresh(entries - old(entries))
      ensures ok <==> p !in old(Pages())
      ensures Pages() == old(Pages()) + {p}
      ensures |list| == |old(list)| + if ok then 1 else 0
    {
      var page := Locate(p);
      EntryMapped(page);
      if page.addr != 0 || page == allMappedPages {
        return false;
      }
      LinkFront(page, p);
      ok := true;
    }

    // A page leaves the map; ok is false where the source aborts because it is not there.
    method Remove(p: int) returns (ok: bool)
      requires Valid() && 0 < p < ADDRESS_LIMIT && p % PAGE_SIZE == 0
      modifies this, entries
      ensures Valid() && fresh(entries - old(entries))
      ensures ok <==> p in old(Pages())
      ensures Pages() == old(Pages()) - {p}
      ensures |list| == |old(list)| - if ok then 1 else 0
      ensures ok ==> exists at :: 0 <= at < |old(list)| && old(list)[at].number * PAGE_SIZE == p
                                  && list == Remaining(old(list), at)
    {
      var page := Locate(p);
      EntryMapped(page);
      if page.addr == 0 {
        return false;
      }
      ghost var at :| 0 <= at < |list| && list[at] == page;
      hide TablesOk, PagesOf, Threaded, Distinct;
      assert page.number * PAGE_SIZE == p;
      PagesRemaining(pageMaps1, entries, list, at);
      Unlink(page, at);
      ok := true;
    }

    method IsMapped(p: int) returns (mapped: bool)
      requires Valid() && 0 <= p < ADDRESS_LIMIT
      ensures mapped <==> PageOf(p) in Pages()
    {
      BitsArePageNumber(p);
      var i, j, k := Level1Bits(p), Level2Bits(p), Level3Bits(p);
      AbsentUnlessStored(p);
      if |pageMaps1| == 0 { return false; }
      if |pageMaps1[i]| == 0 { return false; }
      if |pageMaps1[i][j]| == 0 { return false; }
      mapped := pageMaps1[i][j][k].addr != 0;
      EntryMapped(pageMaps1[i][j][k]);
    }

    // A page whose entry has no table was never mapped.
    lemma AbsentUnlessStored(p: int)
      requires Valid() && 0 <= p < ADDRESS_LIMIT
      ensures PageOf(p) in Pages() ==>
                && |pageMaps1| > Level1Bits(p) && |pageMaps1[Level1Bits(p)]| > Level2Bits(p)
                && |pageMaps1[Level1Bits(p)][Level2Bits(p)]| > Level3Bits(p)
    {
      BitsArePageNumber(p);
      if e :| e in list && e.number * PAGE_SIZE == PageOf(p) {
        assert At(pageMaps1, e);
        PageNumberInjective(e.i, e.j, e.k, Level1Bits(p), Level2Bits(p), Level3Bits(p));
      }
    }

    lemma HeadPage()
      requires Valid() && allMappedPages != null
      ensures list != [] && allMappedPages == list[0]
      ensures 0 < list[0].addr < ADDRESS_LIMIT && list[0].addr == list[0].number * PAGE_SIZE
      ensures list[0].addr in Pages()
      ensures list[0].next == if |list| == 1 then null else list[1]
      ensures forall at :: 0 <= at < |list| && list[at].number * PAGE_SIZE == list[0].addr ==>
                Remaining(list, at) == list[1..]
    {
      assert list[0] in list && Threaded(list, 0);
      forall at | 0 <= at < |list| && list[at].number * PAGE_SIZE == list[0].addr ensures at == 0 {
        assert list[at] in list;
        SameNumber(pageMaps1, entries, list[at], list[0]);
      }
    }

    // One turn of pagemap_for_each: the callback is given addr, then the page is unmapped.
    method VisitHead() returns (addr: int)
      requires Valid() && list != []
      modifies this, entries
      ensures Valid() && fresh(entries - old(entries))
      ensures list == old(list)[1..] && addr == old(list)[0].number * PAGE_SIZE
    {
      hide TablesOk, Distinct, Threaded, PagesOf, Once;
      assert allMappedPages == list[0];
      HeadPage();
      addr := allMappedPages.addr;
      var removed := Remove(addr);
      assert removed;
    }

    // pagemap_for_each: visited collects the addresses the callback is given.
    method ForEach() returns (visited: seq<int>)
      requires Valid()
      modifies this, entries
      ensures Valid() && fresh(entries - old(entries))
      ensures Pages() == {} && list == []
      ensures visited == Addresses(old(list)) && Once(visited, old(Pages())) && |visited| == |old(Pages())|
    {
      hide TablesOk, Distinct, Once, Threaded, PagesOf, Addresses, Walked;
      EachPageOnce(pageMaps1, entries, list);
      visited := [];
      var p := allMappedPages;
      ghost var was := list;
      WalkStarts(was);
      while p != null
        invariant Valid() && fresh(entries - old(entries))
        invariant Walked(was, list, visited)
        invariant p == allMappedPages
        decreases |list|
      {
        HeadPage();
        WalkStep(was, list, visited);
        var next := p.next;
        var addr := VisitHead();
        visited := visited + [addr];
        p := next;
      }
      WalkEnds(was, list, visited);
      allMappedPages := null;
    }
  }
}
