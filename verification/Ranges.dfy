/** The range list of mdriver.c, which records the extent of every live payload. */
module Ranges {
  import opened Words
  import opened PageIndex

  class RangeNode {
    const lo: int
    const hi: int
    var next: RangeNode?

    constructor (lo: int, hi: int, next: RangeNode?)
      ensures this.lo == lo && this.hi == hi && this.next == next
    {
      this.lo, this.hi, this.next := lo, hi, next;
    }
  }

  // The overlap test of add_range: an endpoint of the new range inside an old one.
  predicate EndpointHit(lo: int, hi: int, lo': int, hi': int) {
    lo' <= lo <= hi' || lo' <= hi <= hi'
  }

  predicate Overlap(lo: int, hi: int, lo': int, hi': int) {
    lo <= hi' && lo' <= hi
  }

  // The test misses exactly the ranges that strictly contain an old one.
  lemma EndpointTestGap(lo: int, hi: int, lo': int, hi': int)
    requires lo <= hi && lo' <= hi'
    ensures EndpointHit(lo, hi, lo', hi') <==> Overlap(lo, hi, lo', hi') && !(lo < lo' && hi' < hi)
  {
  }

  // The page probes of add_range: every PAGE_SIZE bytes from lo, and the last byte.
  ghost predicate Probe(pages: set<int>, lo: int, k: int) {
    PageOf(lo + PAGE_SIZE * k) in pages
  }

  ghost predicate ProbesOk(pages: set<int>, lo: int, size: int) {
    && (forall k {:trigger Probe(pages, lo, k)} :: 0 <= k && PAGE_SIZE * k < size ==> Probe(pages, lo, k))
    && PageOf(lo + size - 1) in pages
  }

  // The probes reach every page the range touches, whatever its alignment.
  lemma ProbesCoverRange(pages: set<int>, lo: int, size: int)
    requires 0 < size
    ensures ProbesOk(pages, lo, size) <==> forall a :: lo <= a < lo + size ==> PageOf(a) in pages
  {
    if ProbesOk(pages, lo, size) {
      forall a | lo <= a < lo + size ensures PageOf(a) in pages {
        var k := (a - lo) / PAGE_SIZE;
        assert Probe(pages, lo, k);
        NextProbe(lo, a, size, k);
        assert PAGE_SIZE * (k + 1) < size ==> Probe(pages, lo, k + 1);
      }
    }
    if forall a :: lo <= a < lo + size ==> PageOf(a) in pages {
      forall k | 0 <= k && PAGE_SIZE * k < size ensures Probe(pages, lo, k) {
        var a := lo + PAGE_SIZE * k;
        assert PageOf(a) in pages;
      }
      var a := lo + size - 1;
      assert PageOf(a) in pages;
    }
  }

  lemma NextProbe(lo: int, a: int, size: int, k: int)
    requires lo <= a < lo + size && k == (a - lo) / PAGE_SIZE
    ensures 0 <= k && PAGE_SIZE * k < size
    ensures var next := if PAGE_SIZE * (k + 1) < size then lo + PAGE_SIZE * (k + 1) else lo + size - 1;
            PageOf(a) == PageOf(lo + PAGE_SIZE * k) || PageOf(a) == PageOf(next)
  {
    var d := a - lo;
    assert PAGE_SIZE * k <= d < PAGE_SIZE * k + PAGE_SIZE;
    var next := if PAGE_SIZE * (k + 1) < size then lo + PAGE_SIZE * (k + 1) else lo + size - 1;
    PageBetween(lo + PAGE_SIZE * k, a, next);
  }

  lemma PageBetween(b: int, a: int, c: int)
    requires b <= a <= c <= b + PAGE_SIZE
    ensures PageOf(a) == PageOf(b) || PageOf(a) == PageOf(c)
  {
    PageIs(b);
    PageIs(a);
    PageIs(c);
    var x, y, z := b / PAGE_SIZE, a / PAGE_SIZE, c / PAGE_SIZE;
    assert x <= y <= z <= x + 1;
  }

  lemma PageIs(a: int)
    ensures PageOf(a) == PAGE_SIZE * (a / PAGE_SIZE) && PageOf(a) <= a < PageOf(a) + PAGE_SIZE
  {
  }

  // A payload of 100 bytes at 4096, on the one mapped page, around a recorded one of 16 bytes at 4112: it
  // passes every test of add_range, and overlaps.
  lemma EndpointTestMisses()
    ensures 4096 % 16 == 0 && ProbesOk({4096}, 4096, 100)
    ensures !EndpointHit(4096, 4195, 4112, 4127) && Overlap(4096, 4195, 4112, 4127)
  {
    ProbesCoverRange({4096}, 4096, 100);
  }

  ghost predicate Chain(nodes: seq<RangeNode>, i: int)
    requires 0 <= i < |nodes|
    reads nodes[i]
  {
    nodes[i].next == if i + 1 == |nodes| then null else nodes[i + 1]
  }

  ghost predicate DistinctNodes(nodes: seq<RangeNode>) {
    forall i, j :: 0 <= i < j < |nodes| ==> nodes[i] != nodes[j]
  }

  ghost predicate LosDistinct(nodes: seq<RangeNode>) {
    forall i, j :: 0 <= i < j < |nodes| ==> nodes[i].lo != nodes[j].lo
  }

  ghost function Cut(nodes: seq<RangeNode>, at: int): seq<RangeNode>
    requires 0 <= at < |nodes|
  {
    nodes[..at] + nodes[at + 1..]
  }

  class RangeList {
    var first: RangeNode?
    ghost var nodes: seq<RangeNode>

    ghost function Cells(): set<RangeNode>
      reads this
    {
      set e | e in nodes
    }

    ghost predicate Valid()
      reads this, Cells()
    {
      && first == (if nodes == [] then null else nodes[0])
      && DistinctNodes(nodes)
      && (forall i :: 0 <= i < |nodes| ==> Chain(nodes, i))
    }

    constructor ()
      ensures Valid() && nodes == []
    {
      first, nodes := null, [];
    }

    // What add_range demands of a payload.
    ghost predicate Acceptable(pages: set<int>, lo: int, size: int)
      reads this
    {
      && lo % 16 == 0
      && ProbesOk(pages, lo, size)
      && (forall k :: 0 <= k < |nodes| ==> !EndpointHit(lo, lo + size - 1, nodes[k].lo, nodes[k].hi))
    }

    // It is aligned, every byte of it is on a mapped page, and each recorded range lies apart from it or strictly
    // inside it.
    lemma AcceptableIs(pages: set<int>, lo: int, size: int)
      requires 0 < size && forall k :: 0 <= k < |nodes| ==> nodes[k].lo <= nodes[k].hi
      ensures Acceptable(pages, lo, size) <==>
              && lo % 16 == 0
              && (forall a :: lo <= a < lo + size ==> PageOf(a) in pages)
              && forall k :: 0 <= k < |nodes| ==>
                   || nodes[k].hi < lo || lo + size <= nodes[k].lo
                   || (lo < nodes[k].lo && nodes[k].hi < lo + size - 1)
    {
      hide ProbesOk;
      ProbesCoverRange(pages, lo, size);
    }

    // A payload that add_range accepts overlaps a recorded one exactly when it strictly contains it.
    lemma AcceptedOverlap(pages: set<int>, lo: int, size: int, k: int)
      requires Acceptable(pages, lo, size) && 0 < size
      requires 0 <= k < |nodes| && nodes[k].lo <= nodes[k].hi
      ensures Overlap(lo, lo + size - 1, nodes[k].lo, nodes[k].hi) <==>
              lo < nodes[k].lo && nodes[k].hi < lo + size - 1
    {
    }

    // The page loop of add_range.
    method OnMappedPages(pagemap: Pagemap, lo: int, size: int) returns (ok: bool)
      requires pagemap.Valid() && 0 <= lo && 0 < size && lo + size <= ADDRESS_LIMIT
      ensures ok <==> ProbesOk(pagemap.Pages(), lo, size)
    {
      hide TablesOk, ListOk, PagesOf;
      var i := 0;
      ghost var k := 0;
      while i < size
        invariant 0 <= k && i == PAGE_SIZE * k
        invariant forall j :: 0 <= j < k ==> Probe(pagemap.Pages(), lo, j)
      {
        ok := pagemap.IsMapped(lo + i);
        assert ok <==> Probe(pagemap.Pages(), lo, k);
        if !ok {
          return;
        }
        i, k := i + PAGE_SIZE, k + 1;
      }
      ok := pagemap.IsMapped(lo + size - 1);
    }

    // The overlap loop of add_range.
    method Clear(lo: int, hi: int) returns (ok: bool)
      requires Valid()
      ensures ok <==> forall k :: 0 <= k < |nodes| ==> !EndpointHit(lo, hi, nodes[k].lo, nodes[k].hi)
    {
      var p := first;
      ghost var k := 0;
      while p != null
        invariant 0 <= k <= |nodes| && p == (if k < |nodes| then nodes[k] else null)
        invariant forall j :: 0 <= j < k ==> !EndpointHit(lo, hi, nodes[j].lo, nodes[j].hi)
        decreases |nodes| - k
      {
        if (p.lo <= lo && lo <= p.hi) || (p.lo <= hi && hi <= p.hi) {
          return false;
        }
        assert Chain(nodes, k);
        p, k := p.next, k + 1;
      }
      ok := true;
    }

    method AddRange(pagemap: Pagemap, lo: int, size: int) returns (ok: bool)
      requires Valid() && pagemap.Valid() && 0 <= lo && 0 < size && lo + size <= ADDRESS_LIMIT
      modifies this
      ensures Valid() && (ok <==> old(Acceptable(pagemap.Pages(), lo, size)))
      ensures !ok ==> nodes == old(nodes)
      ensures ok ==> |nodes| > 0 && fresh(nodes[0]) && nodes[0].lo == lo && nodes[0].hi == lo + size - 1
                     && nodes[1..] == old(nodes)
    {
      var hi := lo + size - 1;
      if lo % 16 != 0 {
        return false;
      }
      ok := OnMappedPages(pagemap, lo, size);
      if !ok {
        return;
      }
      ok := Clear(lo, hi);
      if !ok {
        return;
      }
      var p := new RangeNode(lo, hi, first);
      ghost var was := nodes;
      first := p;
      nodes := [p] + nodes;
      forall i | 0 <= i < |nodes| ensures Chain(nodes, i) {
        assert i > 0 ==> Chain(was, i - 1);
      }
    }

    // remove_range: the first node that starts at lo, if any, is cut out.
    method RemoveRange(lo: int) returns (ghost at: int)
      requires Valid()
      modifies this, Cells()
      ensures Valid() && 0 <= at <= |old(nodes)|
      ensures forall k :: 0 <= k < at ==> old(nodes)[k].lo != lo
      ensures if at == |old(nodes)| then nodes == old(nodes)
              else old(nodes)[at].lo == lo && nodes == Cut(old(nodes), at)
    {
      var p, prev: RangeNode? := first, null;
      at := 0;
      while p != null && p.lo != lo
        invariant 0 <= at <= |nodes| && p == (if at < |nodes| then nodes[at] else null)
        invariant prev == (if at == 0 then null else nodes[at - 1])
        invariant forall k :: 0 <= k < at ==> nodes[k].lo != lo
        decreases |nodes| - at
      {
        assert Chain(nodes, at);
        prev, p, at := p, p.next, at + 1;
      }
      if p != null {
        assert Chain(nodes, at);
        if prev == null {
          first := p.next;
        } else {
          prev.next := p.next;
        }
        ghost var was := nodes;
        nodes := Cut(nodes, at);
        forall i | 0 <= i < |nodes| ensures Chain(nodes, i) {
          assert old(Chain(was, if i < at then i else i + 1));
        }
      }
    }

    method ClearRanges()
      requires Valid()
      modifies this
      ensures Valid() && nodes == []
    {
      var p := first;
      ghost var k := 0;
      while p != null
        invariant 0 <= k <= |nodes| && p == (if k < |nodes| then nodes[k] else null)
        decreases |nodes| - k
      {
        assert Chain(nodes, k);
        p, k := p.next, k + 1;
      }
      first, nodes := null, [];
    }
  }

  // add_range lets an overlap in: first 16 bytes at 4112, then 100 bytes at 4096.
  method OverlapAccepted() returns (inner: bool, outer: bool)
    ensures inner && outer
  {
    hide TablesOk, ListOk, PagesOf, PageRange;
    var pagemap := new Pagemap();
    var ranges := new RangeList();
    var mapped := pagemap.Insert(4096);
    assert pagemap.Pages() == {4096};
    ProbesCoverRange({4096}, 4112, 16);
    inner := ranges.AddRange(pagemap, 4112, 16);
    ProbesCoverRange({4096}, 4096, 100);
    outer := ranges.AddRange(pagemap, 4096, 100);
  }
}
