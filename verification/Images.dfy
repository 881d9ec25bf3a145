/** Square images in row-major order, as defs.h lays them out. */
module Images {
  type Sample = s: int | 0 <= s < 0x1_0000

  datatype Pixel = Pixel(red: Sample, green: Sample, blue: Sample)

  // RIDX(i, j, n)
  function Ridx(i: int, j: int, n: int): int { i * n + j }

  ghost predicate OnGrid(i: int, j: int, n: int) { 0 <= i < n && 0 <= j < n }

  lemma RidxInGrid(i: int, j: int, n: int)
    requires OnGrid(i, j, n)
    ensures 0 <= Ridx(i, j, n) < n * n
  {
    assert i * n <= (n - 1) * n;
    assert (n - 1) * n + n == n * n;
  }

  lemma RowGap(i: int, i': int, n: int)
    requires i < i' && 0 < n
    ensures i * n + n <= i' * n
  {
    var d := i' - i - 1;
    assert 0 <= d * n;
    assert i' * n == i * n + n + d * n;
  }

  lemma RidxOnce(i: int, j: int, i': int, j': int, n: int)
    requires OnGrid(i, j, n) && OnGrid(i', j', n) && Ridx(i, j, n) == Ridx(i', j', n)
    ensures i == i' && j == j'
  {
    if i < i' {
      RowGap(i, i', n);
    } else if i' < i {
      RowGap(i', i, n);
    }
  }

  // Distinct places have distinct indices, all of them inside the image.
  ghost predicate Grid(n: int) {
    && (forall i, j {:trigger Ridx(i, j, n)} :: OnGrid(i, j, n) ==> 0 <= Ridx(i, j, n) < n * n)
    && (forall i, j, i', j' {:trigger Ridx(i, j, n), Ridx(i', j', n)} ::
          OnGrid(i, j, n) && OnGrid(i', j', n) && Ridx(i, j, n) == Ridx(i', j', n) ==> i == i' && j == j')
  }

  lemma GridOk(n: int)
    ensures Grid(n)
  {
    forall i, j | OnGrid(i, j, n) ensures 0 <= Ridx(i, j, n) < n * n {
      RidxInGrid(i, j, n);
    }
    forall i, j, i', j' | OnGrid(i, j, n) && OnGrid(i', j', n) && Ridx(i, j, n) == Ridx(i', j', n)
      ensures i == i' && j == j'
    {
      RidxOnce(i, j, i', j', n);
    }
  }

  // Two images agree when they agree at every place.
  lemma SameAtEveryPlace(a: seq<Pixel>, b: seq<Pixel>, n: int)
    requires |a| == |b| && 0 < n && n * n <= |a|
    requires forall i, j :: OnGrid(i, j, n) ==> 0 <= Ridx(i, j, n) < |a| && a[Ridx(i, j, n)] == b[Ridx(i, j, n)]
    requires forall k :: n * n <= k < |a| ==> a[k] == b[k]
    ensures a == b
  {
    forall k | 0 <= k < n * n ensures a[k] == b[k] {
      var i, j := k / n, k % n;
      assert k == Ridx(i, j, n);
      RowInGrid(k, n);
      assert OnGrid(i, j, n);
    }
  }

  lemma RowInGrid(k: int, n: int)
    requires 0 < n && 0 <= k < n * n
    ensures 0 <= k / n < n
  {
  }

  // The places that loops over 8 x 8 tiles have passed, at tile (i, j) and pixel (jjj, iii) inside it.
  ghost predicate TilesPassed(i: int, j: int, jjj: int, iii: int, x: int, y: int) {
    || x < i
    || (i <= x < i + 8 && (y < j || (j <= y < j + 8 && (y < jjj || (y == jjj && x < iii)))))
  }
}
