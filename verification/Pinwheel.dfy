/** The pinwheel kernels of kernels.c: each quadrant turned a quarter, naively and in tiles. */
module Pinwheel {
  import opened Images

  // One quadrant: pixel (ro + x, co + y) of src goes to (top - y, co + x) of dest, for x, y < h.
  datatype Quadrant = Quadrant(n: int, h: int, top: int, ro: int, co: int)

  ghost predicate QuadrantOk(q: Quadrant) {
    && 0 <= q.h && 0 < q.n && 2 * q.h <= q.n
    && (q.top == q.h - 1 || q.top == q.n - 1) && (q.ro == 0 || q.ro == q.h) && (q.co == 0 || q.co == q.h)
  }

  ghost predicate Inside(q: Quadrant, x: int, y: int) { 0 <= x < q.h && 0 <= y < q.h }

  function To(q: Quadrant, x: int, y: int): int { Ridx(q.top - y, q.co + x, q.n) }
  function From(q: Quadrant, x: int, y: int): int { Ridx(q.ro + x, q.co + y, q.n) }

  ghost predicate Turned(q: Quadrant, src: seq<Pixel>, dest: seq<Pixel>, x: int, y: int) {
    0 <= From(q, x, y) < |src| && 0 <= To(q, x, y) < |dest| && dest[To(q, x, y)] == src[From(q, x, y)]
  }

  ghost predicate Target(q: Quadrant, k: int) {
    exists x, y :: Inside(q, x, y) && To(q, x, y) == k
  }

  // dest is was with exactly the quadrant's places rewritten from src.
  ghost predicate QuadrantTurned(q: Quadrant, src: seq<Pixel>, was: seq<Pixel>, dest: seq<Pixel>) {
    && |dest| == |was|
    && (forall x, y :: Inside(q, x, y) ==> Turned(q, src, dest, x, y))
    && (forall k :: 0 <= k < |was| && !Target(q, k) ==> dest[k] == was[k])
  }

  lemma ToOnce(q: Quadrant)
    requires QuadrantOk(q)
    ensures forall x, y, x', y' {:trigger To(q, x, y), To(q, x', y')} ::
              Inside(q, x, y) && Inside(q, x', y') && To(q, x, y) == To(q, x', y') ==> x == x' && y == y'
    ensures forall x, y {:trigger To(q, x, y)} :: Inside(q, x, y) ==> 0 <= To(q, x, y) < q.n * q.n
    ensures forall x, y {:trigger From(q, x, y)} :: Inside(q, x, y) ==> 0 <= From(q, x, y) < q.n * q.n
  {
    forall x, y, x', y' | Inside(q, x, y) && Inside(q, x', y') && To(q, x, y) == To(q, x', y')
      ensures x == x' && y == y'
    {
      RidxOnce(q.top - y, q.co + x, q.top - y', q.co + x', q.n);
    }
    forall x, y | Inside(q, x, y) ensures 0 <= To(q, x, y) < q.n * q.n {
      RidxInGrid(q.top - y, q.co + x, q.n);
    }
    forall x, y | Inside(q, x, y) ensures 0 <= From(q, x, y) < q.n * q.n {
      RidxInGrid(q.ro + x, q.co + y, q.n);
    }
  }

  // The naive loops over one quadrant.
  method TurnNaive(q: Quadrant, src: array<Pixel>, dest: array<Pixel>)
    requires QuadrantOk(q) && src != dest && q.n * q.n <= src.Length && q.n * q.n <= dest.Length
    modifies dest
    ensures QuadrantTurned(q, src[..], old(dest[..]), dest[..])
  {
    hide To, From;
    ToOnce(q);
    ghost var was := dest[..];
    var i := 0;
    while i < q.h
      invariant 0 <= i <= q.h
      invariant forall x, y :: Inside(q, x, y) && x < i ==> Turned(q, src[..], dest[..], x, y)
      invariant forall k :: 0 <= k < |was| && !Target(q, k) ==> dest[k] == was[k]
    {
      var j := 0;
      while j < q.h
        invariant 0 <= j <= q.h
        invariant forall x, y :: Inside(q, x, y) && (x < i || (x == i && y < j)) ==> Turned(q, src[..], dest[..], x, y)
        invariant forall k :: 0 <= k < |was| && !Target(q, k) ==> dest[k] == was[k]
      {
        assert Inside(q, i, j);
        dest[To(q, i, j)] := src[From(q, i, j)];
        j := j + 1;
      }
      i := i + 1;
    }
  }

  // ------------------------------------------------------------ tiled loops

  // The two inner loops: one 8 x 8 tile.
  method TurnTile(q: Quadrant, src: array<Pixel>, dest: array<Pixel>, ii: int, jj: int)
    requires QuadrantOk(q) && src != dest && q.n * q.n <= src.Length && q.n * q.n <= dest.Length
    requires 0 <= ii && ii + 8 <= q.h && 0 <= jj && jj + 8 <= q.h
    requires forall x, y :: Inside(q, x, y) && TilesPassed(ii, jj, jj, ii, x, y) ==> Turned(q, src[..], dest[..], x, y)
    modifies dest
    ensures forall x, y :: Inside(q, x, y) && TilesPassed(ii, jj + 8, jj + 8, ii, x, y) ==>
              Turned(q, src[..], dest[..], x, y)
    ensures forall k :: 0 <= k < dest.Length && !Target(q, k) ==> dest[k] == old(dest[k])
  {
    hide To, From;
    ToOnce(q);
    ghost var was := dest[..];
    var jjj := jj;
    while jjj < jj + 8
      invariant jj <= jjj <= jj + 8
      invariant forall x, y :: Inside(q, x, y) && TilesPassed(ii, jj, jjj, ii, x, y) ==>
                Turned(q, src[..], dest[..], x, y)
      invariant forall k :: 0 <= k < |was| && !Target(q, k) ==> dest[k] == was[k]
    {
      var iii := ii;
      while iii < ii + 8
        invariant ii <= iii <= ii + 8
        invariant forall x, y :: Inside(q, x, y) && TilesPassed(ii, jj, jjj, iii, x, y) ==>
                  Turned(q, src[..], dest[..], x, y)
        invariant forall k :: 0 <= k < |was| && !Target(q, k) ==> dest[k] == was[k]
      {
        assert Inside(q, iii, jjj);
        dest[To(q, iii, jjj)] := src[From(q, iii, jjj)];
        iii := iii + 1;
      }
      jjj := jjj + 1;
    }
  }

  // The four inner loops: one 8 x 8 step of the loops over i and j.
  method TurnStep(q: Quadrant, src: array<Pixel>, dest: array<Pixel>, i: int, j: int)
    requires QuadrantOk(q) && src != dest && q.n * q.n <= src.Length && q.n * q.n <= dest.Length
    requires 0 <= i && i + 8 <= q.h && 0 <= j && j + 8 <= q.h
    requires forall x, y :: Inside(q, x, y) && TilesPassed(i, j, j, i, x, y) ==> Turned(q, src[..], dest[..], x, y)
    modifies dest
    ensures forall x, y :: Inside(q, x, y) && TilesPassed(i, j + 8, j + 8, i, x, y) ==>
              Turned(q, src[..], dest[..], x, y)
    ensures forall k :: 0 <= k < dest.Length && !Target(q, k) ==> dest[k] == old(dest[k])
  {
    hide To, From, Turned, Target;
    ghost var was := dest[..];
    var jj := j;
    while jj < j + 8
      invariant jj == j || jj == j + 8
      invariant forall x, y :: Inside(q, x, y) && TilesPassed(i, jj, jj, i, x, y) ==> Turned(q, src[..], dest[..], x, y)
      invariant forall k :: 0 <= k < |was| && !Target(q, k) ==> dest[k] == was[k]
    {
      var ii := i;
      while ii < i + 8
        invariant ii == i || ii == i + 8
        invariant var jDone := if ii == i then jj else jj + 8;
                  forall x, y :: Inside(q, x, y) && TilesPassed(i, jDone, jDone, i, x, y) ==>
                    Turned(q, src[..], dest[..], x, y)
        invariant forall k :: 0 <= k < |was| && !Target(q, k) ==> dest[k] == was[k]
      {
        TurnTile(q, src, dest, ii, jj);
        ii := ii + 8;
      }
      jj := jj + 8;
    }
  }

  // The six nested loops over one quadrant.
  method TurnTiled(q: Quadrant, src: array<Pixel>, dest: array<Pixel>)
    requires QuadrantOk(q) && src != dest && q.n * q.n <= src.Length && q.n * q.n <= dest.Length
    requires q.h % 8 == 0
    modifies dest
    ensures QuadrantTurned(q, src[..], old(dest[..]), dest[..])
  {
    hide To, From, Turned, Target;
    ghost var was := dest[..];
    ghost var tiles, a := q.h / 8, 0;
    assert q.h == 8 * tiles;
    var i := 0;
    while i < q.h
      invariant i == 8 * a && 0 <= a <= tiles
      invariant forall x, y :: Inside(q, x, y) && TilesPassed(i, 0, 0, i, x, y) ==> Turned(q, src[..], dest[..], x, y)
      invariant forall k :: 0 <= k < |was| && !Target(q, k) ==> dest[k] == was[k]
    {
      var j := 0;
      ghost var b := 0;
      while j < q.h
        invariant j == 8 * b && 0 <= b <= tiles
        invariant forall x, y :: Inside(q, x, y) && TilesPassed(i, j, j, i, x, y) ==> Turned(q, src[..], dest[..], x, y)
        invariant forall k :: 0 <= k < |was| && !Target(q, k) ==> dest[k] == was[k]
      {
        TurnStep(q, src, dest, i, j);
        j, b := j + 8, b + 1;
      }
      i, a := i + 8, a + 1;
    }
  }

  // -------------------------------------------------------- the two kernels

  function Nth(n: int, k: int): Quadrant {
    var h := n / 2;
    Quadrant(n, h, if k < 2 then h - 1 else n - 1, if k < 2 then 0 else h, if k % 2 == 0 then 0 else h)
  }

  // The four quadrants, turned one after the other.
  ghost predicate Pinwheeled(n: int, src: seq<Pixel>, was: seq<Pixel>, dest: seq<Pixel>) {
    exists d1, d2, d3 ::
      && QuadrantTurned(Nth(n, 0), src, was, d1) && QuadrantTurned(Nth(n, 1), src, d1, d2)
      && QuadrantTurned(Nth(n, 2), src, d2, d3) && QuadrantTurned(Nth(n, 3), src, d3, dest)
  }

  method NaivePinwheel(dim: int, src: array<Pixel>, dest: array<Pixel>)
    requires 0 < dim && src != dest && dim * dim <= src.Length && dim * dim <= dest.Length
    modifies dest
    ensures Pinwheeled(dim, src[..], old(dest[..]), dest[..])
  {
    TurnNaive(Nth(dim, 0), src, dest);
    ghost var d1 := dest[..];
    TurnNaive(Nth(dim, 1), src, dest);
    ghost var d2 := dest[..];
    TurnNaive(Nth(dim, 2), src, dest);
    ghost var d3 := dest[..];
    TurnNaive(Nth(dim, 3), src, dest);
  }

  method Pinwheel(dim: int, src: array<Pixel>, dest: array<Pixel>)
    requires 0 < dim && src != dest && dim * dim <= src.Length && dim * dim <= dest.Length
    requires dim / 2 % 8 == 0
    modifies dest
    ensures Pinwheeled(dim, src[..], old(dest[..]), dest[..])
  {
    TurnTiled(Nth(dim, 0), src, dest);
    ghost var d1 := dest[..];
    TurnTiled(Nth(dim, 1), src, dest);
    ghost var d2 := dest[..];
    TurnTiled(Nth(dim, 2), src, dest);
    ghost var d3 := dest[..];
    TurnTiled(Nth(dim, 3), src, dest);
  }

  // Both kernels compute the same image: their contract leaves one result.
  lemma KernelsAgree(n: int, src: seq<Pixel>, was: seq<Pixel>, a: seq<Pixel>, b: seq<Pixel>)
    requires Pinwheeled(n, src, was, a) && Pinwheeled(n, src, was, b)
    ensures a == b
  {
  }

  // Pixel jjj, iii of tile i, j, as the tiled loops visit them for quadrants of side h.
  ghost predicate Visited(h: int, i: int, j: int, jjj: int, iii: int) {
    0 <= i < h && i % 8 == 0 && 0 <= j < h && j % 8 == 0 && j <= jjj < j + 8 && i <= iii < i + 8
  }

  // The tiles stay inside the quadrant exactly when its side is a multiple of 8;
  // otherwise the first quadrant is written above its first row.
  lemma TilesFitIff(n: int)
    requires 0 < n
    ensures n / 2 % 8 == 0 <==>
              forall i, j, jjj, iii :: Visited(n / 2, i, j, jjj, iii) ==> 0 <= n / 2 - 1 - jjj && iii < n / 2
    ensures n / 2 % 8 != 0 ==>
              exists j, jjj :: Visited(n / 2, 0, j, jjj, 0) && Ridx(n / 2 - 1 - jjj, 0, n) < 0
  {
    var h := n / 2;
    if h % 8 == 0 {
      forall i, j, jjj, iii | Visited(h, i, j, jjj, iii) ensures 0 <= h - 1 - jjj && iii < h {
        TileEnd(h, i);
        TileEnd(h, j);
      }
    } else {
      var j := h - h % 8;
      assert Visited(h, 0, j, h, 0);
      assert Ridx(h - 1 - h, 0, n) < 0;
    }
  }

  lemma TileEnd(h: int, i: int)
    requires h % 8 == 0 && i % 8 == 0 && i < h
    ensures i + 8 <= h
  {
  }

  // --------------------------------------------------- what a pinwheel means

  // Where the pixel at (r, c) comes from: a quarter turn inside its own quadrant of side h.
  ghost function SourceRow(h: int, r: int, c: int): int {
    (if r < h then 0 else h) + (if c < h then c else c - h)
  }

  ghost function SourceCol(h: int, r: int, c: int): int {
    (if c < h then 0 else h) + (h - 1 - (if r < h then r else r - h))
  }

  ghost predicate PlaceTurned(n: int, src: seq<Pixel>, dest: seq<Pixel>, r: int, c: int) {
    var from, to := Ridx(SourceRow(n / 2, r, c), SourceCol(n / 2, r, c), n), Ridx(r, c, n);
    0 <= from < |src| && 0 <= to < |dest| && dest[to] == src[from]
  }

  ghost predicate EveryPlaceTurned(n: int, src: seq<Pixel>, dest: seq<Pixel>) {
    forall r, c :: OnGrid(r, c, n) ==> PlaceTurned(n, src, dest, r, c)
  }

  // A place of one quadrant is not a target of another.
  lemma NotATarget(q: Quadrant, r: int, c: int)
    requires QuadrantOk(q) && OnGrid(r, c, q.n)
    requires !(q.top - q.h < r <= q.top && q.co <= c < q.co + q.h)
    ensures !Target(q, Ridx(r, c, q.n))
  {
    forall x, y | Inside(q, x, y) ensures To(q, x, y) != Ridx(r, c, q.n) {
      if To(q, x, y) == Ridx(r, c, q.n) {
        RidxOnce(q.top - y, q.co + x, r, c, q.n);
      }
    }
  }

  lemma PinwheelTurnsPlaces(n: int, src: seq<Pixel>, was: seq<Pixel>, dest: seq<Pixel>)
    requires 0 < n && n % 2 == 0 && n * n <= |was| && Pinwheeled(n, src, was, dest)
    ensures EveryPlaceTurned(n, src, dest)
  {
    var d1, d2, d3 :|
      && QuadrantTurned(Nth(n, 0), src, was, d1) && QuadrantTurned(Nth(n, 1), src, d1, d2)
      && QuadrantTurned(Nth(n, 2), src, d2, d3) && QuadrantTurned(Nth(n, 3), src, d3, dest);
    forall r, c | OnGrid(r, c, n) ensures PlaceTurned(n, src, dest, r, c) {
      PlaceOf(n, src, was, d1, d2, d3, dest, r, c);
    }
  }

  // The four assignments of naive_pinwheel, of a whole image at once.
  lemma TurnedPixels(n: int, src: seq<Pixel>, dest: seq<Pixel>, i: int, j: int)
    requires 0 < n && n % 2 == 0 && EveryPlaceTurned(n, src, dest) && 0 <= i < n / 2 && 0 <= j < n / 2
    ensures var h := n / 2;
            && PixelMoved(n, src, i, j, dest, h - 1 - j, i)
            && PixelMoved(n, src, i, h + j, dest, h - 1 - j, h + i)
            && PixelMoved(n, src, h + i, j, dest, n - 1 - j, i)
            && PixelMoved(n, src, h + i, h + j, dest, n - 1 - j, h + i)
  {
    var h := n / 2;
    assert OnGrid(h - 1 - j, i, n) && OnGrid(h - 1 - j, h + i, n);
    assert OnGrid(n - 1 - j, i, n) && OnGrid(n - 1 - j, h + i, n);
  }

  ghost predicate PixelMoved(n: int, src: seq<Pixel>, r: int, c: int, dest: seq<Pixel>, r': int, c': int) {
    0 <= r * n + c < |src| && 0 <= r' * n + c' < |dest| && dest[r' * n + c'] == src[r * n + c]
  }

  lemma PlaceOf(n: int, src: seq<Pixel>, was: seq<Pixel>, d1: seq<Pixel>, d2: seq<Pixel>, d3: seq<Pixel>,
                dest: seq<Pixel>, r: int, c: int)
    requires 0 < n && n % 2 == 0 && n * n <= |was| && OnGrid(r, c, n)
    requires QuadrantTurned(Nth(n, 0), src, was, d1) && QuadrantTurned(Nth(n, 1), src, d1, d2)
    requires QuadrantTurned(Nth(n, 2), src, d2, d3) && QuadrantTurned(Nth(n, 3), src, d3, dest)
    ensures PlaceTurned(n, src, dest, r, c)
  {
    var h := n / 2;
    var k := (if r < h then 0 else 2) + (if c < h then 0 else 1);
    var q := Nth(n, k);
    RidxInGrid(r, c, n);
    assert Inside(q, c - q.co, q.top - r);
    if k < 1 { NotATarget(Nth(n, 1), r, c); }
    if k < 2 { NotATarget(Nth(n, 2), r, c); }
    if k < 3 { NotATarget(Nth(n, 3), r, c); }
    var d := if k == 0 then d1 else if k == 1 then d2 else if k == 2 then d3 else dest;
    assert Turned(q, src, d, c - q.co, q.top - r);
  }

  // Four pinwheels restore the image.
  lemma FourTurnsRestore(n: int, a0: seq<Pixel>, a1: seq<Pixel>, a2: seq<Pixel>, a3: seq<Pixel>, a4: seq<Pixel>)
    requires 0 < n && n % 2 == 0 && |a0| == |a4| == n * n
    requires EveryPlaceTurned(n, a0, a1) && EveryPlaceTurned(n, a1, a2)
    requires EveryPlaceTurned(n, a2, a3) && EveryPlaceTurned(n, a3, a4)
    ensures a4 == a0
  {
    var h := n / 2;
    forall r, c | OnGrid(r, c, n) ensures 0 <= Ridx(r, c, n) < |a4| && a4[Ridx(r, c, n)] == a0[Ridx(r, c, n)] {
      RidxInGrid(r, c, n);
      var r1, c1 := SourceRow(h, r, c), SourceCol(h, r, c);
      var r2, c2 := SourceRow(h, r1, c1), SourceCol(h, r1, c1);
      var r3, c3 := SourceRow(h, r2, c2), SourceCol(h, r2, c2);
      assert PlaceTurned(n, a3, a4, r, c) && PlaceTurned(n, a2, a3, r1, c1);
      assert PlaceTurned(n, a1, a2, r2, c2) && PlaceTurned(n, a0, a1, r3, c3);
      assert SourceRow(h, r3, c3) == r && SourceCol(h, r3, c3) == c;
    }
    SameAtEveryPlace(a4, a0, n);
  }
}
