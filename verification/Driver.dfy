/** The trace driver of mdriver.c: validity check and space accounting of the allocator. */
module TraceDriver {
  import opened Words
  import opened Sums
  import opened HeapShape
  import opened HeapState
  import opened HeapMemory
  import opened HeapAccount
  import opened HeapTheorems
  import opened Bytes
  import opened MemoryBridge
  import opened Allocator
  import opened Ranges
  import PageIndex

  datatype TraceOp = Alloc(id: int, size: int) | Free(id: int) | Realloc(id: int, size: int)

  datatype Verdict = Passed | Failed | Aborted

  // ------------------------------------------------------------------ traces

  predicate SizeOk(size: int) { 0 < size <= MAX_REQUEST }

  // What a trace promises at each request; ids are the ones live before it.
  ghost predicate Legal(op: TraceOp, n: int, ids: set<int>) {
    match op
    case Alloc(id, size) => 0 <= id < n && SizeOk(size)
    case Free(id) => id in ids
    case Realloc(id, size) => id in ids && SizeOk(size)
  }

  ghost function IdsAfter(op: TraceOp, ids: set<int>): set<int> {
    match op
    case Alloc(id, _) => ids + {id}
    case Free(id) => ids - {id}
    case Realloc(_, _) => ids
  }

  // The ids that are live, and the sizes on record, once these requests have been served.
  ghost function IdsAfterAll(ops: seq<TraceOp>, ids: set<int>): set<int> {
    if ops == [] then ids else IdsAfter(ops[|ops| - 1], IdsAfterAll(ops[..|ops| - 1], ids))
  }

  ghost function SizesAfter(op: TraceOp, sizes: seq<int>): seq<int> {
    if op.Free? || !(0 <= op.id < |sizes|) then sizes else sizes[op.id := op.size]
  }

  ghost function SizesAfterAll(ops: seq<TraceOp>, sizes: seq<int>): seq<int> {
    if ops == [] then sizes else SizesAfter(ops[|ops| - 1], SizesAfterAll(ops[..|ops| - 1], sizes))
  }

  ghost predicate WellFormed(ops: seq<TraceOp>, n: int, ids: set<int>) {
    forall i :: 0 <= i < |ops| ==> Legal(ops[i], n, IdsAfterAll(ops[..i], ids))
  }

  // A trace that reuses no live id and frees everything.
  ghost predicate Balanced(ops: seq<TraceOp>, ids: set<int>) {
    && (forall i :: 0 <= i < |ops| ==> (ops[i].Alloc? ==> ops[i].id !in IdsAfterAll(ops[..i], ids)))
    && IdsAfterAll(ops, ids) == {}
  }

  // The bytes requested and not yet freed, and the most there ever were: what a trace asks of any allocator.
  ghost function TotalAfter(op: TraceOp, sizes: seq<int>, total: int): int {
    if !(0 <= op.id < |sizes|) then total
    else
      match op
      case Alloc(_, size) => total + size
      case Free(id) => total - sizes[id]
      case Realloc(id, size) => total + (size - sizes[id])
  }

  ghost function TotalAfterAll(ops: seq<TraceOp>, sizes: seq<int>): int {
    if ops == [] then 0
    else
      var front := ops[..|ops| - 1];
      TotalAfter(ops[|ops| - 1], SizesAfterAll(front, sizes), TotalAfterAll(front, sizes))
  }

  ghost function Peak(ops: seq<TraceOp>, sizes: seq<int>): int {
    if ops == [] then 0 else Max(TotalAfterAll(ops, sizes), Peak(ops[..|ops| - 1], sizes))
  }

  // One more request of a trace.
  lemma NextRequest(ops: seq<TraceOp>, i: nat, ids: set<int>, sizes: seq<int>)
    requires i < |ops|
    ensures IdsAfterAll(ops[..i + 1], ids) == IdsAfter(ops[i], IdsAfterAll(ops[..i], ids))
    ensures SizesAfterAll(ops[..i + 1], sizes) == SizesAfter(ops[i], SizesAfterAll(ops[..i], sizes))
    ensures TotalAfterAll(ops[..i + 1], sizes) ==
            TotalAfter(ops[i], SizesAfterAll(ops[..i], sizes), TotalAfterAll(ops[..i], sizes))
    ensures Peak(ops[..i + 1], sizes) == Max(TotalAfterAll(ops[..i + 1], sizes), Peak(ops[..i], sizes))
  {
    assert ops[..i + 1][..i] == ops[..i];
  }

  // Request j allocates id, and no later one frees it.
  ghost predicate Unfreed(ops: seq<TraceOp>, id: int, j: int) {
    0 <= j < |ops| && ops[j].Alloc? && ops[j].id == id && forall k :: j < k < |ops| ==> ops[k] != Free(id)
  }

  // An id is live when it has been allocated, or was live at the start, and not been freed since.
  lemma {:induction false} LiveIds(ops: seq<TraceOp>, ids: set<int>, id: int)
    ensures id in IdsAfterAll(ops, ids) <==> (exists j :: Unfreed(ops, id, j)) || (id in ids && Free(id) !in ops)
  {
    if ops != [] {
      var n := |ops| - 1;
      var front := ops[..n];
      assert ops == front + [ops[n]];
      LiveIds(front, ids, id);
      UnfreedBefore(ops, id);
      if ops[n].Alloc? && ops[n].id == id { assert Unfreed(ops, id, n); }
    }
  }

  lemma {:induction false} UnfreedBefore(ops: seq<TraceOp>, id: int)
    requires ops != []
    ensures var n := |ops| - 1;
      forall j :: 0 <= j < n ==> (Unfreed(ops, id, j) <==> Unfreed(ops[..n], id, j) && ops[n] != Free(id))
  {
    var n := |ops| - 1;
    assert forall k :: 0 <= k < n ==> ops[..n][k] == ops[k];
  }

  // The size on record is the one asked for last.
  lemma {:induction false} RecordedSizes(ops: seq<TraceOp>, sizes: seq<int>, id: int, j: int)
    requires 0 <= id < |sizes| && -1 <= j < |ops| && (j >= 0 ==> !ops[j].Free? && ops[j].id == id)
    requires forall k :: j < k < |ops| ==> ops[k].Free? || ops[k].id != id
    ensures |SizesAfterAll(ops, sizes)| == |sizes|
    ensures SizesAfterAll(ops, sizes)[id] == if j >= 0 then ops[j].size else sizes[id]
  {
    if ops != [] {
      var n := |ops| - 1;
      if j == n {
        SizesLength(ops[..n], sizes);
      } else {
        RecordedSizes(ops[..n], sizes, id, j);
      }
    }
  }

  lemma {:induction false} SizesLength(ops: seq<TraceOp>, sizes: seq<int>)
    ensures |SizesAfterAll(ops, sizes)| == |sizes|
  {
    if ops != [] { SizesLength(ops[..|ops| - 1], sizes); }
  }

  // The peak is the largest of all totals on the way, the empty one included.
  lemma {:induction false} PeakIs(ops: seq<TraceOp>, sizes: seq<int>)
    ensures forall i :: 0 <= i <= |ops| ==> TotalAfterAll(ops[..i], sizes) <= Peak(ops, sizes)
    ensures exists i :: 0 <= i <= |ops| && TotalAfterAll(ops[..i], sizes) == Peak(ops, sizes)
  {
    hide TotalAfter, SizesAfterAll;
    assert ops[..|ops|] == ops;
    if ops == [] {
      assert TotalAfterAll(ops[..0], sizes) == 0;
    } else {
      var front := ops[..|ops| - 1];
      PeakIs(front, sizes);
      assert forall i :: 0 <= i <= |front| ==> front[..i] == ops[..i];
    }
  }

  // A request for id, and then its release: a trace that frees everything.
  lemma AllocAndFree(id: int, size: int, n: int)
    requires 0 <= id < n && SizeOk(size)
    ensures WellFormed([Alloc(id, size), Free(id)], n, {}) && Balanced([Alloc(id, size), Free(id)], {})
  {
    var ops := [Alloc(id, size), Free(id)];
    assert ops[..0] == [] && ops[..1] == [Alloc(id, size)] && [Alloc(id, size)][..0] == [];
    assert IdsAfterAll(ops[..1], {}) == {id};
    assert IdsAfterAll(ops, {}) == {};
  }

  lemma NoRequest(ids: set<int>, sizes: seq<int>)
    ensures IdsAfterAll([], ids) == ids && SizesAfterAll([], sizes) == sizes
    ensures TotalAfterAll([], sizes) == 0 && Peak([], sizes) == 0
  {
  }

  lemma RequestLegal(ops: seq<TraceOp>, i: nat, n: int, ids: set<int>)
    requires i < |ops| && WellFormed(ops, n, ids)
    ensures Legal(ops[i], n, IdsAfterAll(ops[..i], ids))
    ensures Balanced(ops, ids) && ops[i].Alloc? ==> ops[i].id !in IdsAfterAll(ops[..i], ids)
  {
  }

  // ------------------------------------------------------------------ ledger

  // Every live payload with its requested size.
  ghost predicate Recorded(blk: Blocks, live: set<int>, req: map<int, int>) {
    req.Keys == live && forall p :: p in req ==> p in blk && 0 < req[p] && req[p] + 8 <= blk[p].size
  }

  ghost predicate NodeIs(nodes: seq<RangeNode>, req: map<int, int>, k: int) {
    0 <= k < |nodes| && nodes[k].lo in req && nodes[k].hi == nodes[k].lo + req[nodes[k].lo] - 1
  }

  ghost predicate Listed(nodes: seq<RangeNode>, p: int) {
    exists k :: 0 <= k < |nodes| && nodes[k].lo == p
  }

  // The range list is the recorded payloads, each once.
  ghost predicate RangesAre(nodes: seq<RangeNode>, req: map<int, int>) {
    && LosDistinct(nodes)
    && (forall k :: 0 <= k < |nodes| ==> NodeIs(nodes, req, k))
    && (forall p :: p in req ==> Listed(nodes, p))
  }

  ghost predicate IdOk(m: Memory, req: map<int, int>, ptrs: seq<int>, sizes: seq<int>, painted: bool, id: int) {
    && 0 <= id < |ptrs| && |ptrs| == |sizes|
    && ptrs[id] in req && sizes[id] == req[ptrs[id]]
    && (painted ==> Filled(m, ptrs[id], sizes[id], id % 256))
  }

  // The live ids, their pointers and, if painted, the byte their payloads are filled with.
  ghost predicate IdsAre(m: Memory, req: map<int, int>, ids: set<int>, ptrs: seq<int>, sizes: seq<int>, painted: bool) {
    && |ptrs| == |sizes|
    && (forall id {:trigger IdOk(m, req, ptrs, sizes, painted, id)} ::
          id in ids ==> IdOk(m, req, ptrs, sizes, painted, id))
    && (forall id, id' :: id in ids && id' in ids && id != id' ==> Differ(ptrs, id, id'))
  }

  ghost predicate Differ(ptrs: seq<int>, i: int, j: int) {
    0 <= i < |ptrs| && 0 <= j < |ptrs| && ptrs[i] != ptrs[j]
  }

  // add_range accepts the payload the allocator has just handed out.
  lemma NewPayloadAccepted(pages: set<int>, blk: Blocks, chunks: Chunks, live: set<int>, req: map<int, int>,
                           nodes: seq<RangeNode>, p: int, size: int)
    requires Shape(blk, chunks) && ChunksMapped(pages, chunks)
    requires p in blk && 0 < size && size + 8 <= blk[p].size && p !in req
    requires forall q :: q in req ==> q in blk && req[q] + 8 <= blk[q].size
    requires forall k :: 0 <= k < |nodes| ==> NodeIs(nodes, req, k)
    ensures p % 16 == 0 && ProbesOk(pages, p, size) && 0 <= p && p + size <= ADDRESS_LIMIT
    ensures forall k :: 0 <= k < |nodes| ==> !EndpointHit(p, p + size - 1, nodes[k].lo, nodes[k].hi)
  {
    assert BlockOk(blk, chunks, p) && ChunkOk(blk[p].home, chunks[blk[p].home]);
    forall a | p <= a < p + size ensures PageOf(a) in pages {
      PayloadsSound(pages, blk, chunks, p, p, a);
    }
    ProbesCoverRange(pages, p, size);
    forall k | 0 <= k < |nodes| ensures !EndpointHit(p, p + size - 1, nodes[k].lo, nodes[k].hi) {
      assert NodeIs(nodes, req, k);
      PayloadsSound(pages, blk, chunks, p, nodes[k].lo, p);
    }
  }

  lemma AddedRange(nodes: seq<RangeNode>, req: map<int, int>, now: seq<RangeNode>, p: int, size: int)
    requires RangesAre(nodes, req) && p !in req
    requires |now| > 0 && now[0].lo == p && now[0].hi == p + size - 1 && now[1..] == nodes
    ensures RangesAre(now, req[p := size])
  {
    var more := req[p := size];
    assert forall k :: 0 <= k < |nodes| ==> now[k + 1] == nodes[k];
    forall k | 0 <= k < |now| ensures NodeIs(now, more, k) {
      assert k > 0 ==> NodeIs(nodes, req, k - 1);
    }
    forall i, j | 0 <= i < j < |now| ensures now[i].lo != now[j].lo {
      assert NodeIs(nodes, req, j - 1);
    }
    forall q | q in more ensures Listed(now, q) {
      if q != p {
        var k :| 0 <= k < |nodes| && nodes[k].lo == q;
        assert now[k + 1].lo == q;
      }
    }
  }

  lemma CutRange(nodes: seq<RangeNode>, req: map<int, int>, at: int, p: int)
    requires RangesAre(nodes, req) && p in req
    requires 0 <= at <= |nodes| && forall k :: 0 <= k < at ==> nodes[k].lo != p
    requires at < |nodes| ==> nodes[at].lo == p
    ensures at < |nodes| && RangesAre(Cut(nodes, at), req - {p})
  {
    assert Listed(nodes, p);
    var now := Cut(nodes, at);
    forall k | 0 <= k < |now| ensures NodeIs(now, req - {p}, k) {
      var t := if k < at then k else k + 1;
      assert now[k] == nodes[t] && NodeIs(nodes, req, t);
    }
    forall q | q in req - {p} ensures Listed(now, q) {
      assert Listed(nodes, q);
      var t :| 0 <= t < |nodes| && nodes[t].lo == q;
      assert now[if t < at then t else t - 1].lo == q;
    }
  }

  // Ids survive a step that keeps every recorded payload they point to.
  lemma IdsKept(m: Memory, out: Memory, blk: Blocks, live: set<int>, req: map<int, int>, req': map<int, int>,
                ids: set<int>, ids': set<int>, ptrs: seq<int>, sizes: seq<int>, painted: bool)
    requires IdsAre(m, req, ids, ptrs, sizes, painted) && ids' <= ids && Kept(m, out, blk, live)
    requires forall p :: p in req ==> p in blk && p % 16 == 0 && req[p] + 8 <= blk[p].size
    requires forall id :: id in ids' && 0 <= id < |ptrs| ==>
               ptrs[id] in live && ptrs[id] in req' && (ptrs[id] in req ==> req'[ptrs[id]] == req[ptrs[id]])
    ensures IdsAre(out, req', ids', ptrs, sizes, painted)
  {
    forall id | id in ids' ensures IdOk(out, req', ptrs, sizes, painted, id) {
      assert IdOk(m, req, ptrs, sizes, painted, id);
      if painted {
        KeptKeepsFill(m, out, blk, live, ptrs[id], sizes[id], id % 256);
      }
    }
  }

  lemma IdSet(m: Memory, req: map<int, int>, ids: set<int>, ptrs: seq<int>, sizes: seq<int>, id: int, p: int,
              painted: bool)
    requires IdsAre(m, req, ids, ptrs, sizes, painted) && 0 <= id < |ptrs| && p in req
    requires painted ==> Filled(m, p, req[p], id % 256)
    requires forall i :: i in ids && i != id && 0 <= i < |ptrs| ==> ptrs[i] != p
    ensures IdsAre(m, req, ids + {id}, ptrs[id := p], sizes[id := req[p]], painted)
  {
    forall i | i in ids + {id} ensures IdOk(m, req, ptrs[id := p], sizes[id := req[p]], painted, i) {
      assert i in ids ==> IdOk(m, req, ptrs, sizes, painted, i);
    }
    forall i, j | i in ids + {id} && j in ids + {id} && i != j ensures Differ(ptrs[id := p], i, j) {
      assert i in ids ==> IdOk(m, req, ptrs, sizes, painted, i);
      assert j in ids ==> IdOk(m, req, ptrs, sizes, painted, j);
      assert i in ids && j in ids ==> Differ(ptrs, i, j);
    }
  }

  lemma RecordedAligned(blk: Blocks, chunks: Chunks, live: set<int>, req: map<int, int>)
    requires Shape(blk, chunks) && Recorded(blk, live, req)
    ensures forall p :: p in req ==> p in blk && p % 16 == 0 && req[p] + 8 <= blk[p].size
  {
    forall p | p in req ensures p in blk && p % 16 == 0 && req[p] + 8 <= blk[p].size {
      assert BlockOk(blk, chunks, p);
    }
  }

  lemma IdsUnclaimed(m: Memory, req: map<int, int>, ids: set<int>, ptrs: seq<int>, sizes: seq<int>, p: int,
                     painted: bool)
    requires IdsAre(m, req, ids, ptrs, sizes, painted)
    ensures forall id :: id in ids && 0 <= id < |ptrs| ==> ptrs[id] in req && (p !in req ==> ptrs[id] != p)
  {
    forall id | id in ids && 0 <= id < |ptrs| ensures ptrs[id] in req && (p !in req ==> ptrs[id] != p) {
      assert IdOk(m, req, ptrs, sizes, painted, id);
    }
  }

  lemma ObtainLedger(m: Memory, out: Memory, blk: Blocks, now: Blocks, chunks: Chunks, live: set<int>,
                     fl: seq<int>, head: int, req: map<int, int>, ids: set<int>, ptrs: seq<int>, sizes: seq<int>,
                     p: int, size: int, painted: bool)
    requires HeapOk(m, blk, chunks, live, fl, head) && Recorded(blk, live, req)
    requires IdsAre(m, req, ids, ptrs, sizes, painted)
    requires Kept(m, out, blk, live) && SameBlocks(blk, now, live)
    requires p !in live && p in now && 0 < size && size + 8 <= now[p].size
    ensures Recorded(now, live + {p}, req[p := size]) && IdsAre(out, req[p := size], ids, ptrs, sizes, painted)
    ensures p !in req && forall id :: id in ids && 0 <= id < |ptrs| ==> ptrs[id] != p
  {
    RecordedAligned(blk, chunks, live, req);
    IdsUnclaimed(m, req, ids, ptrs, sizes, p, painted);
    IdsKept(m, out, blk, live, req, req[p := size], ids, ids, ptrs, sizes, painted);
  }

  lemma FillLedger(m: Memory, out: Memory, blk: Blocks, chunks: Chunks, live: set<int>, fl: seq<int>, head: int,
                   req: map<int, int>, ids: set<int>, ptrs: seq<int>, sizes: seq<int>, p: int, painted: bool)
    requires HeapOk(m, blk, chunks, live, fl, head) && Recorded(blk, live, req)
    requires IdsAre(m, req, ids, ptrs, sizes, painted)
    requires Kept(m, out, blk, live - {p}) && forall id :: id in ids && 0 <= id < |ptrs| ==> ptrs[id] != p
    ensures IdsAre(out, req, ids, ptrs, sizes, painted)
  {
    RecordedAligned(blk, chunks, live, req);
    IdsUnclaimed(m, req, ids, ptrs, sizes, p, painted);
    IdsKept(m, out, blk, live - {p}, req, req, ids, ids, ptrs, sizes, painted);
  }

  lemma DropLedger(m: Memory, out: Memory, blk: Blocks, now: Blocks, chunks: Chunks, live: set<int>,
                   fl: seq<int>, head: int, req: map<int, int>, ids: set<int>, ptrs: seq<int>, sizes: seq<int>,
                   p: int, painted: bool)
    requires HeapOk(m, blk, chunks, live, fl, head) && Recorded(blk, live, req)
    requires IdsAre(m, req, ids, ptrs, sizes, painted)
    requires Kept(m, out, blk, live - {p}) && SameBlocks(blk, now, live - {p})
    requires p in live && forall id :: id in ids && 0 <= id < |ptrs| ==> ptrs[id] != p
    ensures Recorded(now, live - {p}, req - {p}) && IdsAre(out, req - {p}, ids, ptrs, sizes, painted)
  {
    RecordedAligned(blk, chunks, live, req);
    IdsUnclaimed(m, req, ids, ptrs, sizes, p, painted);
    IdsKept(m, out, blk, live - {p}, req, req - {p}, ids, ids, ptrs, sizes, painted);
  }

  lemma DropFill(m: Memory, out: Memory, blk: Blocks, chunks: Chunks, live: set<int>, fl: seq<int>, head: int,
                 req: map<int, int>, p: int, q: int, b: int)
    requires HeapOk(m, blk, chunks, live, fl, head) && Recorded(blk, live, req)
    requires Kept(m, out, blk, live - {p}) && q in req && q != p && Filled(m, q, req[q], b)
    ensures Filled(out, q, req[q], b)
  {
    RecordedAligned(blk, chunks, live, req);
    KeptKeepsFill(m, out, blk, live - {p}, q, req[q], b);
  }

  // Every payload handed out is still pointed to by a live id.
  ghost predicate Claimed(ids: set<int>, ptrs: seq<int>, p: int) {
    exists id :: id in ids && 0 <= id < |ptrs| && ptrs[id] == p
  }

  ghost predicate NoLeaks(req: map<int, int>, ids: set<int>, ptrs: seq<int>) {
    forall p :: p in req ==> Claimed(ids, ptrs, p)
  }

  lemma LeakStep(req: map<int, int>, ids: set<int>, ptrs: seq<int>, op: TraceOp, p: int,
                 req': map<int, int>, ptrs': seq<int>)
    requires NoLeaks(req, ids, ptrs) && 0 <= op.id < |ptrs| && (op.Alloc? ==> op.id !in ids)
    requires match op
             case Alloc(id, size) => req' == req[p := size] && ptrs' == ptrs[id := p]
             case Free(id) => id in ids && req' == req - {ptrs[id]} && ptrs' == ptrs
             case Realloc(id, size) => id in ids && req' == (req - {ptrs[id]})[p := size] && ptrs' == ptrs[id := p]
    ensures NoLeaks(req', IdsAfter(op, ids), ptrs')
  {
  }

  // One request maps fewer than 2^31 bytes.
  lemma ChunkPages(pages: set<int>, c: int, request: int)
    requires SizeOk(request) && Paged(c)
    ensures |pages + PageRange(c, ChunkSize(BlockSize(request)))| < |pages| + 0x8_0000
  {
    var n := ChunkSize(BlockSize(request));
    ChunkSizeFits(request);
    PageRangeSize(c, n);
    UnionSize(pages, PageRange(c, n));
  }

  lemma UnionSize(a: set<int>, b: set<int>)
    ensures |a + b| <= |a| + |b|
  {
  }

  lemma SubsetSize(a: set<int>, b: set<int>)
    requires a <= b
    ensures |a| <= |b|
  {
    assert b == a + (b - a);
  }

  // ---------------------------------------------------------- space accounting

  // What the loop of eval_mm_util knows: the totals, and that either the heap has stayed
  // below 2 GiB or its int product has once been negative, hence huge as a size_t.
  ghost predicate Accounted(pages: nat, maxTotal: int, maxHeap: int) {
    && 0 <= maxTotal <= maxHeap
    && (pages < 0x8_0000 || maxHeap >= ADDRESS_LIMIT - INT_LIMIT)
  }

  lemma AccountStep(was: nat, now: nat, total: int, maxTotal: int, maxHeap: int)
    requires Accounted(was, maxTotal, maxHeap) && now < was + 0x8_0000
    requires 0 <= total <= PAGE_SIZE * now < USER_LIMIT
    ensures Accounted(now, Max(total, maxTotal), Max(HeapSizeOf(now), maxHeap))
  {
  }

  // The page counts of a run, one after each request; the largest heap size they stand for.
  ghost function LastCount(counts: seq<nat>): nat {
    if counts == [] then 0 else counts[|counts| - 1]
  }

  ghost function HeapPeak(counts: seq<nat>): int {
    if counts == [] then 0 else Max(HeapSizeOf(LastCount(counts)), HeapPeak(counts[..|counts| - 1]))
  }

  // The heap peak is 0 when there are no counts, and otherwise the largest heap size of any of them.
  lemma {:induction false} HeapPeakIs(counts: seq<nat>)
    ensures forall i :: 0 <= i < |counts| ==> HeapSizeOf(counts[i]) <= HeapPeak(counts)
    ensures HeapPeak(counts) == 0 || exists i :: 0 <= i < |counts| && HeapSizeOf(counts[i]) == HeapPeak(counts)
  {
    hide HeapSizeOf;
    if counts != [] {
      var n := |counts| - 1;
      HeapPeakIs(counts[..n]);
      assert forall i :: 0 <= i < n ==> counts[..n][i] == counts[i];
    }
  }

  // After each request the pages hold all that is then requested, and it has mapped fewer than 2^19 of them.
  ghost predicate CountsOk(ops: seq<TraceOp>, sizes: seq<int>, counts: seq<nat>) {
    |counts| <= |ops| && forall i :: 0 <= i < |counts| ==> CountOk(ops, sizes, counts, i)
  }

  ghost predicate CountOk(ops: seq<TraceOp>, sizes: seq<int>, counts: seq<nat>, i: int)
    requires |counts| <= |ops| && 0 <= i < |counts|
  {
    && TotalAfterAll(ops[..i + 1], sizes) <= PAGE_SIZE * counts[i] < USER_LIMIT
    && counts[i] < (if i == 0 then 0 else counts[i - 1]) + 0x8_0000
  }

  lemma NoCounts(ops: seq<TraceOp>, sizes: seq<int>)
    ensures HeapPeak([]) == 0 && LastCount([]) == 0 && CountsOk(ops, sizes, [])
  {
  }

  lemma NextCount(ops: seq<TraceOp>, sizes: seq<int>, counts: seq<nat>, now: nat)
    requires CountsOk(ops, sizes, counts) && |counts| < |ops| && now < LastCount(counts) + 0x8_0000
    requires TotalAfterAll(ops[..|counts| + 1], sizes) <= PAGE_SIZE * now < USER_LIMIT
    ensures CountsOk(ops, sizes, counts + [now]) && LastCount(counts + [now]) == now
    ensures HeapPeak(counts + [now]) == Max(HeapSizeOf(now), HeapPeak(counts))
  {
    hide TotalAfterAll;
    var more := counts + [now];
    assert more[..|counts|] == counts;
    forall i | 0 <= i < |more| ensures CountOk(ops, sizes, more, i) {
      if i < |counts| { assert CountOk(ops, sizes, counts, i); }
    }
  }

  class Driver {
    const mm: Mm
    const ranges: RangeList
    const blocks: array<int>
    const blockSizes: array<int>
    ghost var req: map<int, int>
    ghost var ids: set<int>
    // Are payloads filled with their id, as the validity check does?
    ghost var painted: bool

    constructor (numIds: nat, offers: nat -> int)
      ensures mm.lib.Valid() && mm.lib.pagemap.Pages() == {} && ranges.Valid()
      ensures blocks != blockSizes && blocks.Length == blockSizes.Length == numIds
      ensures fresh(mm) && fresh(mm.lib) && fresh(mm.lib.pagemap) && fresh(mm.lib.pagemap.entries)
      ensures fresh(ranges) && fresh(ranges.Cells()) && fresh(blocks) && fresh(blockSizes)
    {
      var lib := new Memlib(offers);
      mm := new Mm(lib);
      ranges := new RangeList();
      blocks := new int[numIds];
      blockSizes := new int[numIds];
      req, ids, painted := map[], {}, true;
    }

    // The allocator with the records of what it has handed out, but for the range list.
    ghost predicate Ledger()
      reads this, mm, mm.lib, mm.lib.pagemap, mm.lib.pagemap.entries, mm.lib.pagemap.list, blocks, blockSizes
    {
      && mm.Valid() && blocks != blockSizes
      && Recorded(mm.blk, mm.live, req)
      && IdsAre(mm.lib.mem, req, ids, blocks[..], blockSizes[..], painted)
    }

    ghost predicate Valid()
      reads this, mm, mm.lib, mm.lib.pagemap, mm.lib.pagemap.entries, mm.lib.pagemap.list, blocks, blockSizes,
            ranges, ranges.Cells()
    {
      Ledger() && ranges.Valid() && RangesAre(ranges.nodes, req)
    }

    // The request needs a chunk, because no free block fits, and the system refuses one of that size.
    ghost predicate Refused(op: TraceOp)
      reads mm, mm.lib, mm.lib.pagemap
    {
      !op.Free? && mm.NoneFits(BlockSize(op.size)) && mm.lib.Refuses(ChunkSize(BlockSize(op.size)))
    }

    // A request that is refused leaves heap and records as they were.
    twostate predicate Unserved()
      reads this, mm, mm.lib, mm.lib.pagemap, blocks, blockSizes
    {
      && mm.Untouched() && req == old(req) && ids == old(ids)
      && blocks[..] == old(blocks[..]) && blockSizes[..] == old(blockSizes[..])
    }

    // No live id points to p.
    ghost predicate Unclaimed(p: int)
      reads this, blocks
    {
      forall id :: id in ids && 0 <= id < blocks.Length ==> blocks[id] != p
    }

    method Obtain(size: int) returns (r: MallocResult)
      requires Ledger() && SizeOk(size)
      modifies `req, mm, mm.lib, mm.lib.pagemap, mm.lib.pagemap.entries
      ensures !r.Null? && fresh(mm.lib.pagemap.entries - old(mm.lib.pagemap.entries))
      ensures Ledger()
      ensures r.Payload? ==> r.bp !in old(req) && req == old(req)[r.bp := size] && Unclaimed(r.bp)
      ensures |mm.lib.pagemap.Pages()| < |old(mm.lib.pagemap.Pages())| + 0x8_0000
      ensures r.OutOfMemory? <==> old(Refused(Alloc(0, size)))
      ensures r.OutOfMemory? ==> Unserved() && Refused(Alloc(0, size))
    {
      hide PageIndex.TablesOk, PageIndex.ListOk, PageIndex.PagesOf, WordsOf, PageRange, Conserved;
      ghost var i;
      hide HeapState.HeapOk, IdsAre, Recorded, HeapMemory.Kept, HeapTidy.Tidy, HeapAccount.ChunksMapped;
      hide HeapState.Carve, HeapState.CarveList, HeapState.SameBlocks, Allocator.Divided, Allocator.FirstFit;
      hide LeastBlock, LeastChunk, ChunkSize, BlockSize;
      r, i := mm.MmMalloc(size);
      if r.Payload? {
        ghost var more := req[r.bp := size];
        ObtainLedger(old(mm.lib.mem), mm.lib.mem, old(mm.blk), mm.blk, old(mm.chunks), old(mm.live), old(mm.fl),
                     old(mm.freeList), req, ids, blocks[..], blockSizes[..], r.bp, size, painted);
        req := more;
        PlacedPages(size, BlockSize(size), if r.bp - 16 in mm.chunks then mm.chunks[r.bp - 16] else 0);
        ObtainPages(old(mm.lib.pagemap.Pages()), mm.lib.pagemap.Pages(), r.bp, size);
      }
    }

    lemma PlacedPages(size: int, n: int, c: int)
      requires SizeOk(size) && n == BlockSize(size)
      ensures LeastBlock(size, n) && (LeastChunk(n, c) ==> c == ChunkSize(n))
    {
      BlockSizeIs(size, n);
      BlockSizeFits(size);
      ChunkSizeIs(n, c);
    }

    lemma ObtainPages(was: set<int>, now: set<int>, bp: int, size: int)
      requires mm.Heap() && SizeOk(size)
      requires now == was || (now == was + PageRange(bp - 16, ChunkSize(BlockSize(size))) && bp - 16 in mm.chunks)
      ensures |now| < |was| + 0x8_0000
    {
      if now != was {
        assert ChunkOk(bp - 16, mm.chunks[bp - 16]);
        ChunkPages(was, bp - 16, size);
      }
    }

    // add_range, then memset, on a payload just obtained; listed is what the range list holds.
    method Admit(p: int, size: int, b: int, ghost listed: map<int, int>) returns (ok: bool)
      requires Ledger() && p in req && req[p] == size && Unclaimed(p) && 0 <= b < 256
      requires ranges.Valid() && RangesAre(ranges.nodes, listed) && p !in listed
      requires forall q :: q in listed ==> q in req && listed[q] == req[q]
      modifies ranges, mm.lib`mem
      ensures ok && Ledger() && Filled(mm.lib.mem, p, size, b)
      ensures ranges.Valid() && RangesAre(ranges.nodes, listed[p := size])
      ensures fresh(ranges.Cells() - old(ranges.Cells()))
    {
      hide PageIndex.TablesOk, PageIndex.ListOk, PageIndex.PagesOf, WordsOf, PageRange, Conserved;
      NewPayloadAccepted(mm.lib.pagemap.Pages(), mm.blk, mm.chunks, mm.live, listed, ranges.nodes, p, size);
      ghost var was := ranges.nodes;
      ok := ranges.AddRange(mm.lib.pagemap, p, size);
      AddedRange(was, listed, ranges.nodes, p, size);
      ghost var m := mm.lib.mem;
      mm.Memset(p, b, size);
      FillLedger(m, mm.lib.mem, mm.blk, mm.chunks, mm.live, mm.fl, mm.freeList, req, ids, blocks[..], blockSizes[..], p,
                 painted);
    }

    // mm_free on a payload no live id points to; the bytes of any other payload q stay.
    method Drop(p: int, ghost q: int, ghost b: int)
      requires Ledger() && p in req && Unclaimed(p)
      requires painted && q in req && q != p ==> Filled(mm.lib.mem, q, req[q], b)
      modifies `req, mm, mm.lib, mm.lib.pagemap, mm.lib.pagemap.entries
      ensures fresh(mm.lib.pagemap.entries - old(mm.lib.pagemap.entries))
      ensures Ledger() && req == old(req) - {p}
      ensures Kept(old(mm.lib.mem), mm.lib.mem, old(mm.blk), mm.live)
      ensures |mm.lib.pagemap.Pages()| <= |old(mm.lib.pagemap.Pages())|
      ensures painted && q in req ==> Filled(mm.lib.mem, q, req[q], b)
    {
      hide PageIndex.TablesOk, PageIndex.ListOk, PageIndex.PagesOf, WordsOf, PageRange, Conserved;
      hide HeapState.HeapOk, IdsAre, HeapMemory.Kept;
      mm.MmFree(p);
      DropLedger(old(mm.lib.mem), mm.lib.mem, old(mm.blk), mm.blk, old(mm.chunks), old(mm.live), old(mm.fl),
                 old(mm.freeList), req, ids, blocks[..], blockSizes[..], p, painted);
      if painted && q in req && q != p {
        DropFill(old(mm.lib.mem), mm.lib.mem, old(mm.blk), old(mm.chunks), old(mm.live), old(mm.fl),
                 old(mm.freeList), req, p, q, b);
      }
      SubsetSize(mm.lib.pagemap.Pages(), old(mm.lib.pagemap.Pages()));
      req := req - {p};
    }

    // mm_free on the payload of a live id.
    method DropId(id: int, p: int, ghost q: int, ghost b: int)
      requires Ledger() && id in ids && 0 <= id < blocks.Length && blocks[id] == p
      requires painted && q in req && q != p ==> Filled(mm.lib.mem, q, req[q], b)
      modifies `req, `ids, mm, mm.lib, mm.lib.pagemap, mm.lib.pagemap.entries
      ensures fresh(mm.lib.pagemap.entries - old(mm.lib.pagemap.entries))
      ensures Ledger() && req == old(req) - {p} && ids == old(ids) - {id}
      ensures Kept(old(mm.lib.mem), mm.lib.mem, old(mm.blk), mm.live)
      ensures |mm.lib.pagemap.Pages()| <= |old(mm.lib.pagemap.Pages())|
      ensures painted && q in req ==> Filled(mm.lib.mem, q, req[q], b)
    {
      hide HeapMemory.Kept, HeapState.HeapOk, IdsAre, Recorded, Mm.Valid;
      ForgetId(id);
      ids := ids - {id};
      Drop(p, q, b);
    }

    lemma KnownId(id: int)
      requires Ledger() && id in ids
      ensures 0 <= id < blocks.Length && blocks.Length == blockSizes.Length && blocks[id] in req
      ensures blockSizes[id] == req[blocks[id]]
    {
      assert IdOk(mm.lib.mem, req, blocks[..], blockSizes[..], painted, id);
    }

    // The index of a request now has this payload and this size.
    method Remember(id: int, p: int, size: int)
      requires Ledger() && 0 <= id < blocks.Length && p in req && size == req[p]
      requires painted ==> Filled(mm.lib.mem, p, req[p], id % 256)
      requires forall i :: i in ids && i != id && 0 <= i < blocks.Length ==> blocks[i] != p
      modifies `ids, blocks, blockSizes
      ensures Ledger() && ids == old(ids) + {id} && blocks[..] == old(blocks[..])[id := p]
      ensures blockSizes[..] == old(blockSizes[..])[id := size]
    {
      hide PageIndex.TablesOk, PageIndex.ListOk, PageIndex.PagesOf, WordsOf, PageRange, Conserved;
      hide HeapState.HeapOk;
      IdSet(mm.lib.mem, req, ids, blocks[..], blockSizes[..], id, p, painted);
      assert blocks.Length == blockSizes.Length;
      blocks[id] := p;
      blockSizes[id] := size;
      ids := ids + {id};
      assert blocks[..] == old(blocks[..])[id := p];
      assert blockSizes[..] == old(blockSizes[..])[id := req[p]];
    }

    lemma ForgetId(id: int)
      requires Ledger() && id in ids
      ensures 0 <= id < blocks.Length && blocks.Length == blockSizes.Length && blocks[id] in req
      ensures IdsAre(mm.lib.mem, req, ids - {id}, blocks[..], blockSizes[..], painted)
      ensures forall i :: i in ids - {id} && 0 <= i < blocks.Length ==> blocks[i] != blocks[id]
    {
      var m, ptrs, sizes := mm.lib.mem, blocks[..], blockSizes[..];
      assert IdOk(m, req, ptrs, sizes, painted, id);
      forall i | i in ids - {id} ensures IdOk(m, req, ptrs, sizes, painted, i) && Differ(ptrs, i, id) {
      }
    }

    // remove_range on a payload the list holds.
    method Unlist(p: int, ghost listed: map<int, int>)
      requires ranges.Valid() && RangesAre(ranges.nodes, listed) && p in listed
      modifies ranges, ranges.Cells()
      ensures ranges.Valid() && RangesAre(ranges.nodes, listed - {p})
      ensures ranges.Cells() <= old(ranges.Cells())
    {
      ghost var was := ranges.nodes;
      ghost var at := ranges.RemoveRange(p);
      CutRange(was, listed, at, p);
    }

    method RunAlloc(id: int, size: int) returns (v: Verdict, ghost p: int)
      requires Valid() && 0 <= id < blocks.Length == blockSizes.Length && SizeOk(size)
      modifies `req, `ids, mm, mm.lib, mm.lib.pagemap, mm.lib.pagemap.entries
      modifies ranges, ranges.Cells(), blocks, blockSizes
      ensures !v.Failed? && fresh(mm.lib.pagemap.entries - old(mm.lib.pagemap.entries))
      ensures v.Aborted? <==> old(Refused(Alloc(id, size)))
      ensures v.Aborted? ==> Valid() && Unserved() && Refused(Alloc(id, size))
      ensures fresh(ranges.Cells() - old(ranges.Cells()))
      ensures v.Passed? ==> Valid() && ids == old(ids) + {id} && p !in old(req)
                            && req == old(req)[p := size] && blocks[..] == old(blocks[..])[id := p]
                            && blockSizes[..] == old(blockSizes[..])[id := size]
    {
      hide PageIndex.TablesOk, PageIndex.ListOk, PageIndex.PagesOf, WordsOf, PageRange, Conserved;
      hide HeapState.HeapOk, IdsAre, RangesAre, Driver.Ledger, RangeList.Valid;
      var r := Obtain(size);
      p := if r.Payload? then r.bp else 0;
      if r.OutOfMemory? {
        return Aborted, p;
      }
      if r.Null? {
        return Failed, p;
      }
      var ok := Admit(r.bp, size, id % 256, old(req));
      if !ok {
        return Failed, p;
      }
      Remember(id, r.bp, size);
      v := Passed;
    }

    method RunFree(id: int) returns (ghost p: int)
      requires Valid() && id in ids
      modifies `req, `ids, mm, mm.lib, mm.lib.pagemap, mm.lib.pagemap.entries
      modifies ranges, ranges.Cells(), blocks, blockSizes
      ensures fresh(mm.lib.pagemap.entries - old(mm.lib.pagemap.entries))
      ensures fresh(ranges.Cells() - old(ranges.Cells()))
      ensures Valid() && ids == old(ids) - {id} && 0 <= id < blocks.Length && p == blocks[id]
      ensures Kept(old(mm.lib.mem), mm.lib.mem, old(mm.blk), mm.live)
      ensures req == old(req) - {p} && p in old(req) && blocks[..] == old(blocks[..])
      ensures blockSizes[..] == old(blockSizes[..])
    {
      hide PageIndex.TablesOk, PageIndex.ListOk, PageIndex.PagesOf, WordsOf, PageRange, Conserved;
      hide HeapState.HeapOk, IdsAre, RangesAre, HeapMemory.Kept, Driver.Ledger, RangeList.Valid;
      KnownId(id);
      var q := blocks[id];
      p := q;
      Unlist(q, req);
      DropId(id, q, q, 0);
    }

    method RunRealloc(id: int, size: int) returns (v: Verdict, ghost p: int)
      requires Valid() && id in ids && SizeOk(size)
      modifies `req, `ids, mm, mm.lib, mm.lib.pagemap, mm.lib.pagemap.entries
      modifies ranges, ranges.Cells(), blocks, blockSizes
      ensures !v.Failed? && fresh(mm.lib.pagemap.entries - old(mm.lib.pagemap.entries))
      ensures v.Aborted? <==> old(Refused(Realloc(id, size)))
      ensures v.Aborted? ==> Valid() && Unserved() && Refused(Realloc(id, size))
      ensures fresh(ranges.Cells() - old(ranges.Cells()))
      ensures 0 <= id < blocks.Length == blockSizes.Length
      ensures v.Passed? ==> Valid() && ids == old(ids) && p !in old(req) && old(blocks[id]) in old(req)
                            && req == (old(req) - {old(blocks[id])})[p := size]
                            && blocks[..] == old(blocks[..])[id := p]
                            && blockSizes[..] == old(blockSizes[..])[id := size]
    {
      hide PageIndex.TablesOk, PageIndex.ListOk, PageIndex.PagesOf, WordsOf, PageRange, Conserved;
      hide HeapState.HeapOk, IdsAre, RangesAre, Driver.Ledger, RangeList.Valid;
      KnownId(id);
      var oldp := blocks[id];
      var r := Obtain(size);
      p := if r.Payload? then r.bp else 0;
      if r.OutOfMemory? {
        return Aborted, p;
      }
      if r.Null? {
        return Failed, p;
      }
      var ok := Replace(id, oldp, r.bp, size, old(req));
      v := if ok then Passed else Failed;
    }

    // The rest of a REALLOC request, once mm_malloc has answered.
    method Replace(id: int, oldp: int, newp: int, size: int, ghost listed: map<int, int>) returns (ok: bool)
      requires Ledger() && SizeOk(size)
      requires id in ids && 0 <= id < blocks.Length == blockSizes.Length && blocks[id] == oldp
      requires oldp in listed && newp !in listed && req == listed[newp := size] && Unclaimed(newp)
      requires ranges.Valid() && RangesAre(ranges.nodes, listed)
      modifies `req, `ids, mm, mm.lib, mm.lib.pagemap, mm.lib.pagemap.entries
      modifies ranges, ranges.Cells(), blocks, blockSizes
      ensures ok && Valid() && ids == old(ids) && req == (listed - {oldp})[newp := size]
      ensures blocks[..] == old(blocks[..])[id := newp] && blockSizes[..] == old(blockSizes[..])[id := size]
      ensures fresh(mm.lib.pagemap.entries - old(mm.lib.pagemap.entries)) && fresh(ranges.Cells() - old(ranges.Cells()))
    {
      hide PageIndex.TablesOk, PageIndex.ListOk, PageIndex.PagesOf, WordsOf, PageRange, Conserved;
      hide HeapState.HeapOk, IdsAre, RangesAre, Driver.Ledger, RangeList.Valid, HeapMemory.Kept, Filled;
      Unlist(oldp, listed);
      ok := Admit(newp, size, id % 256, listed - {oldp});
      if !ok {
        return;
      }
      Rebind(id, oldp, newp, size);
      assert listed[newp := size] - {oldp} == (listed - {oldp})[newp := size];
    }

    // mm_free of the old payload; the index then has the new one.
    method Rebind(id: int, oldp: int, newp: int, size: int)
      requires Ledger() && id in ids && 0 <= id < blocks.Length == blockSizes.Length && blocks[id] == oldp != newp
      requires newp in req && req[newp] == size && Unclaimed(newp) && Filled(mm.lib.mem, newp, size, id % 256)
      modifies `req, `ids, mm, mm.lib, mm.lib.pagemap, mm.lib.pagemap.entries, blocks, blockSizes
      ensures Ledger() && ids == old(ids) && req == old(req) - {oldp}
      ensures blocks[..] == old(blocks[..])[id := newp] && blockSizes[..] == old(blockSizes[..])[id := size]
      ensures fresh(mm.lib.pagemap.entries - old(mm.lib.pagemap.entries))
    {
      hide PageIndex.TablesOk, PageIndex.ListOk, PageIndex.PagesOf, WordsOf, PageRange, Conserved;
      hide HeapState.HeapOk, IdsAre, Driver.Ledger, HeapMemory.Kept, Filled;
      DropId(id, oldp, newp, id % 256);
      Remember(id, newp, size);
    }

    // One turn of the loop of eval_mm_valid.
    method Step(op: TraceOp) returns (v: Verdict)
      requires Valid() && Legal(op, blocks.Length, ids) && blocks.Length == blockSizes.Length
      modifies `req, `ids, mm, mm.lib, mm.lib.pagemap, mm.lib.pagemap.entries
      modifies ranges, ranges.Cells(), blocks, blockSizes
      ensures !v.Failed? && fresh(mm.lib.pagemap.entries - old(mm.lib.pagemap.entries))
      ensures v.Aborted? <==> old(Refused(op))
      ensures v.Aborted? ==> Valid() && Unserved() && Refused(op)
      ensures fresh(ranges.Cells() - old(ranges.Cells()))
      ensures v.Passed? ==> Valid() && ids == IdsAfter(op, old(ids))
                            && blockSizes[..] == SizesAfter(op, old(blockSizes[..]))
      ensures v.Passed? && old(NoLeaks(req, ids, blocks[..])) && (op.Alloc? ==> op.id !in old(ids)) ==>
                NoLeaks(req, ids, blocks[..])
    {
      hide PageIndex.TablesOk, PageIndex.ListOk, PageIndex.PagesOf, WordsOf, PageRange, Conserved;
      hide HeapState.HeapOk, IdsAre, RangesAre, NoLeaks, Driver.Ledger;
      ghost var p;
      match op {
        case Alloc(id, size) => v, p := RunAlloc(id, size);
        case Realloc(id, size) => v, p := RunRealloc(id, size);
        case Free(id) => p := RunFree(id); v := Passed;
      }
      if v.Passed? && old(NoLeaks(req, ids, blocks[..])) && (op.Alloc? ==> op.id !in old(ids)) {
        LeakStep(old(req), old(ids), old(blocks[..]), op, p, req, blocks[..]);
      }
    }

    // The loop of eval_mm_valid: the first `done` requests are served, and the next one, if any, is refused.
    method RunTrace(ops: seq<TraceOp>) returns (v: Verdict, ghost done: nat)
      requires Valid() && WellFormed(ops, blocks.Length, ids) && blocks.Length == blockSizes.Length
      modifies `req, `ids, mm, mm.lib, mm.lib.pagemap, mm.lib.pagemap.entries
      modifies ranges, ranges.Cells(), blocks, blockSizes
      ensures !v.Failed? && fresh(mm.lib.pagemap.entries - old(mm.lib.pagemap.entries))
      ensures done <= |ops| && (v.Passed? <==> done == |ops|)
      ensures Valid() && ids == IdsAfterAll(ops[..done], old(ids))
      ensures blockSizes[..] == SizesAfterAll(ops[..done], old(blockSizes[..]))
      ensures v.Aborted? ==> Refused(ops[done])
      ensures v.Passed? && old(NoLeaks(req, ids, blocks[..])) && Balanced(ops, old(ids)) ==>
                NoLeaks(req, ids, blocks[..]) && ids == {}
    {
      hide PageIndex.TablesOk, PageIndex.ListOk, PageIndex.PagesOf, WordsOf, PageRange, Conserved;
      hide HeapState.HeapOk, IdsAre, RangesAre, NoLeaks, Driver.Ledger, Driver.Valid, Driver.Refused;
      hide WellFormed, IdsAfterAll, SizesAfterAll, IdsAfter, SizesAfter;
      ghost var tidy := NoLeaks(req, ids, blocks[..]) && Balanced(ops, ids);
      v, done := Passed, 0;
      var i := 0;
      NoRequest(ids, blockSizes[..]);
      while i < |ops|
        invariant 0 <= i == done <= |ops| && v.Passed? && Valid()
        invariant fresh(mm.lib.pagemap.entries - old(mm.lib.pagemap.entries))
        invariant fresh(ranges.Cells() - old(ranges.Cells()))
        invariant ids == IdsAfterAll(ops[..i], old(ids))
        invariant blockSizes[..] == SizesAfterAll(ops[..i], old(blockSizes[..]))
        invariant tidy ==> NoLeaks(req, ids, blocks[..])
      {
        RequestLegal(ops, i, blocks.Length, old(ids));
        NextRequest(ops, i, old(ids), old(blockSizes[..]));
        v := Step(ops[i]);
        if !v.Passed? {
          return;
        }
        i, done := i + 1, done + 1;
      }
      assert ops[..i] == ops;
    }

    // eval_mm_valid on a memory system with nothing mapped; pagesAtEnd is what mem_reset finds.
    method EvalMmValid(ops: seq<TraceOp>) returns (v: Verdict, ghost done: nat, ghost pagesAtEnd: set<int>)
      requires mm.lib.Valid() && mm.lib.pagemap.Pages() == {} && ranges.Valid()
      requires blocks != blockSizes && blocks.Length == blockSizes.Length
      requires WellFormed(ops, blocks.Length, {})
      modifies this, mm, mm.lib, mm.lib.pagemap, mm.lib.pagemap.entries
      modifies ranges, ranges.Cells(), blocks, blockSizes
      ensures !v.Failed? && done <= |ops| && (v.Passed? <==> done == |ops|)
      ensures ids == IdsAfterAll(ops[..done], {})
      ensures blockSizes[..] == SizesAfterAll(ops[..done], old(blockSizes[..]))
      ensures v.Aborted? ==> Valid() && Refused(ops[done])
      ensures v.Passed? ==> mm.lib.Valid() && mm.lib.pagemap.Pages() == {} && ranges.Valid()
      ensures v.Passed? && Balanced(ops, {}) ==> pagesAtEnd == {}
    {
      hide PageIndex.TablesOk, PageIndex.ListOk, PageIndex.PagesOf, WordsOf, PageRange, Conserved;
      hide HeapState.HeapOk, IdsAre, RangesAre, Driver.Ledger, Driver.Refused, IdsAfterAll, SizesAfterAll, WellFormed;
      pagesAtEnd := {};
      Start();
      v, done := RunTrace(ops);
      if v.Passed? {
        pagesAtEnd := Finish(Balanced(ops, {}));
      }
    }

    // The mem_reset that ends a run.
    method Finish(ghost balanced: bool) returns (ghost pagesAtEnd: set<int>)
      requires Ledger() && (balanced ==> NoLeaks(req, ids, blocks[..]) && ids == {})
      modifies mm.lib, mm.lib.pagemap, mm.lib.pagemap.entries
      ensures mm.lib.Valid() && mm.lib.pagemap.Pages() == {}
      ensures balanced ==> pagesAtEnd == {}
    {
      hide PageIndex.TablesOk, PageIndex.ListOk, PageIndex.PagesOf, WordsOf, PageRange, Conserved;
      pagesAtEnd := mm.lib.pagemap.Pages();
      if balanced {
        NothingLeft();
      }
      var _ := mm.lib.MemReset();
    }

    // mm_init, with nothing on record.
    method Init(paint: bool)
      requires mm.lib.Valid() && mm.lib.pagemap.Pages() == {}
      requires blocks != blockSizes && blocks.Length == blockSizes.Length
      modifies `req, `ids, `painted, mm
      ensures Ledger() && req == map[] && ids == {} && painted == paint
    {
      hide PageIndex.TablesOk, PageIndex.ListOk, PageIndex.PagesOf, WordsOf, Conserved, HeapState.HeapOk, HeapTidy.Tidy;
      mm.MmInit();
      req, ids, painted := map[], {}, paint;
    }

    method Start()
      requires mm.lib.Valid() && mm.lib.pagemap.Pages() == {} && ranges.Valid()
      requires blocks != blockSizes && blocks.Length == blockSizes.Length
      modifies this, mm, ranges
      ensures Valid() && req == map[] && ids == {} && painted && ranges.nodes == []
    {
      ranges.ClearRanges();
      Init(true);
    }

    lemma NothingLeft()
      requires Ledger() && NoLeaks(req, ids, blocks[..]) && ids == {}
      ensures mm.lib.pagemap.Pages() == {}
    {
      assert forall p :: p in req ==> Claimed(ids, blocks[..], p);
      NoMembers(mm.live);
      BalancedHeapIsEmpty(mm.lib.mem, mm.lib.pagemap.Pages(), mm.blk, mm.chunks, mm.live, mm.fl, mm.freeList);
    }

    // ------------------------------------------------------------- eval_mm_util

    // The bytes of all live requests fit in the mapped pages, which mmap keeps below 2^47 bytes.
    lemma RequestsFitHeap()
      requires Ledger()
      ensures 0 <= Total(req) <= PAGE_SIZE * |mm.lib.pagemap.Pages()| < USER_LIMIT
    {
      LiveFitsHeap(mm.lib.pagemap.Pages(), mm.blk, mm.chunks, req);
      UserPagesBound(mm.lib.pagemap.Pages());
      TotalMonotone(map[], req);
    }

    // The payload p is the one a request has obtained, or the one it has freed.
    twostate predicate RecordsAfter(op: TraceOp, p: int)
      reads this, blocks
    {
      0 <= op.id < blocks.Length &&
      var was := old(blocks[op.id]);
      match op
      case Alloc(id, size) => p !in old(req) && req == old(req)[p := size] && blocks[..] == old(blocks[..])[id := p]
      case Realloc(id, size) =>
        && p !in old(req) && was in old(req) && req == (old(req) - {was})[p := size]
        && blocks[..] == old(blocks[..])[id := p]
      case Free(id) => p == was && p in old(req) && req == old(req) - {p} && blocks[..] == old(blocks[..])
    }

    // One request of eval_mm_util: allocator calls, records and the running total.
    method UtilStep(op: TraceOp, totalSize: int) returns (v: Verdict, total: int, ghost p: int)
      requires Ledger() && !painted && Legal(op, blocks.Length, ids) && totalSize == Total(req)
      requires blocks.Length == blockSizes.Length
      modifies `req, `ids, mm, mm.lib, mm.lib.pagemap, mm.lib.pagemap.entries, blocks, blockSizes
      ensures !v.Failed? && fresh(mm.lib.pagemap.entries - old(mm.lib.pagemap.entries))
      ensures v.Aborted? <==> old(Refused(op))
      ensures v.Aborted? ==> Ledger() && Unserved() && Refused(op) && total == totalSize
      ensures v.Passed? ==> Ledger() && ids == IdsAfter(op, old(ids)) && total == Total(req)
                            && total == TotalAfter(op, old(blockSizes[..]), totalSize)
                            && blockSizes[..] == SizesAfter(op, old(blockSizes[..]))
                            && |mm.lib.pagemap.Pages()| < |old(mm.lib.pagemap.Pages())| + 0x8_0000
                            && RecordsAfter(op, p)
    {
      hide PageIndex.TablesOk, PageIndex.ListOk, PageIndex.PagesOf, WordsOf, PageRange, Conserved;
      hide HeapState.HeapOk, IdsAre, Driver.Ledger;
      v, total, p := Passed, totalSize, 0;
      match op {
        case Alloc(id, size) =>
          KnownArrays();
          var r := Obtain(size);
          if !r.Payload? {
            return Aborted, total, p;
          }
          p := r.bp;
          TotalAdd(old(req), r.bp, size);
          Remember(id, r.bp, size);
          total := total + size;
        case Realloc(id, newSize) =>
          KnownId(id);
          var oldSize := blockSizes[id];
          var oldp := blocks[id];
          var r := Obtain(newSize);
          if !r.Payload? {
            return Aborted, total, p;
          }
          p := r.bp;
          DropId(id, oldp, oldp, 0);
          Remember(id, r.bp, newSize);
          ReallocTotal(old(req), oldp, r.bp, newSize);
          total := total + (newSize - oldSize);
        case Free(id) =>
          KnownId(id);
          var size := blockSizes[id];
          var q := blocks[id];
          p := q;
          DropId(id, q, q, 0);
          TotalRemove(old(req), q);
          total := total - size;
      }
    }

    lemma KnownArrays()
      requires Ledger()
      ensures blocks.Length == blockSizes.Length && !(blocks == blockSizes)
    {
    }

    lemma ReallocTotal(was: map<int, int>, oldp: int, newp: int, size: int)
      requires oldp in was && newp !in was
      ensures Total(was[newp := size] - {oldp}) == Total(was) + size - was[oldp]
    {
      TotalAdd(was, newp, size);
      TotalRemove(was[newp := size], oldp);
    }

    // eval_mm_util, but for the floating-point ratios; counts is the number of mapped pages after each request.
    method EvalMmUtil(ops: seq<TraceOp>)
        returns (v: Verdict, maxTotalSize: int, maxHeapSize: int, ghost done: nat, ghost counts: seq<nat>)
      requires mm.lib.Valid() && mm.lib.pagemap.Pages() == {}
      requires blocks != blockSizes && blocks.Length == blockSizes.Length
      requires WellFormed(ops, blocks.Length, {})
      modifies this, mm, mm.lib, mm.lib.pagemap, mm.lib.pagemap.entries, blocks, blockSizes
      ensures !v.Failed? && done <= |ops| && (v.Passed? <==> done == |ops|)
      ensures ids == IdsAfterAll(ops[..done], {})
      ensures blockSizes[..] == SizesAfterAll(ops[..done], old(blockSizes[..]))
      ensures v.Aborted? ==> Ledger() && Refused(ops[done])
      ensures maxTotalSize == Peak(ops[..done], old(blockSizes[..])) && maxTotalSize <= maxHeapSize
      ensures |counts| == done && maxHeapSize == HeapPeak(counts) && CountsOk(ops, old(blockSizes[..]), counts)
      ensures v.Passed? ==> mm.lib.Valid() && mm.lib.pagemap.Pages() == {}
    {
      hide PageIndex.TablesOk, PageIndex.ListOk, PageIndex.PagesOf, WordsOf, PageRange, Conserved;
      hide HeapState.HeapOk, IdsAre, RangesAre, Driver.Ledger, RangeList.Valid, Driver.Refused;
      hide IdsAfterAll, SizesAfterAll, Peak, HeapPeak, CountsOk, WellFormed;
      Init(false);
      v, maxTotalSize, maxHeapSize, done, counts := RunUtil(ops);
      if v.Passed? {
        ghost var _ := Finish(false);
      }
    }

    // Its loop: the first `done` requests are served, and the next one, if any, is refused.
    method RunUtil(ops: seq<TraceOp>)
        returns (v: Verdict, maxTotalSize: int, maxHeapSize: int, ghost done: nat, ghost counts: seq<nat>)
      requires Ledger() && !painted && req == map[] && mm.lib.pagemap.Pages() == {}
      requires WellFormed(ops, blocks.Length, ids) && blocks.Length == blockSizes.Length
      modifies `req, `ids, mm, mm.lib, mm.lib.pagemap, mm.lib.pagemap.entries, blocks, blockSizes
      ensures !v.Failed? && fresh(mm.lib.pagemap.entries - old(mm.lib.pagemap.entries))
      ensures done <= |ops| && (v.Passed? <==> done == |ops|)
      ensures Ledger() && ids == IdsAfterAll(ops[..done], old(ids))
      ensures blockSizes[..] == SizesAfterAll(ops[..done], old(blockSizes[..]))
      ensures v.Aborted? ==> Refused(ops[done])
      ensures maxTotalSize == Peak(ops[..done], old(blockSizes[..])) && maxTotalSize <= maxHeapSize
      ensures |counts| == done && maxHeapSize == HeapPeak(counts) && CountsOk(ops, old(blockSizes[..]), counts)
      ensures |mm.lib.pagemap.Pages()| == LastCount(counts)
    {
      hide PageIndex.TablesOk, PageIndex.ListOk, PageIndex.PagesOf, WordsOf, PageRange, Conserved;
      hide HeapState.HeapOk, IdsAre, Driver.Ledger, Driver.Refused;
      hide WellFormed, IdsAfterAll, SizesAfterAll, TotalAfterAll, Peak, IdsAfter, SizesAfter, TotalAfter;
      hide HeapPeak, CountsOk, LastCount, HeapSizeOf;
      maxTotalSize, maxHeapSize, done, counts := 0, 0, 0, [];
      var totalSize := 0;
      v := Passed;
      var i := 0;
      NoRequest(ids, blockSizes[..]);
      NoCounts(ops, blockSizes[..]);
      while i < |ops|
        invariant 0 <= i == done <= |ops| && v.Passed? && Ledger()
        invariant fresh(mm.lib.pagemap.entries - old(mm.lib.pagemap.entries))
        invariant ids == IdsAfterAll(ops[..i], old(ids))
        invariant blockSizes[..] == SizesAfterAll(ops[..i], old(blockSizes[..]))
        invariant totalSize == Total(req) == TotalAfterAll(ops[..i], old(blockSizes[..]))
        invariant maxTotalSize == Peak(ops[..i], old(blockSizes[..]))
        invariant |counts| == i && maxHeapSize == HeapPeak(counts) && CountsOk(ops, old(blockSizes[..]), counts)
        invariant |mm.lib.pagemap.Pages()| == LastCount(counts)
        invariant Accounted(LastCount(counts), maxTotalSize, maxHeapSize)
      {
        RequestLegal(ops, i, blocks.Length, old(ids));
        NextRequest(ops, i, old(ids), old(blockSizes[..]));
        ghost var p;
        v, totalSize, p := UtilStep(ops[i], totalSize);
        if !v.Passed? {
          return;
        }
        RequestsFitHeap();
        ghost var now := |mm.lib.pagemap.Pages()|;
        AccountStep(LastCount(counts), now, totalSize, maxTotalSize, maxHeapSize);
        NextCount(ops, old(blockSizes[..]), counts, now);
        maxTotalSize := Max(totalSize, maxTotalSize);
        var heapSize := HeapSize();
        maxHeapSize := Max(heapSize, maxHeapSize);
        counts := counts + [now];
        i, done := i + 1, done + 1;
      }
      assert ops[..i] == ops;
    }

    method HeapSize() returns (r: int)
      requires Ledger()
      ensures r == HeapSizeOf(|mm.lib.pagemap.Pages()|)
    {
      r := mm.lib.MemHeapSize();
    }
  }
}
