/** The motion kernels of kernels.c: a weighted blur, naively in floating point and by shifts in tiles. */
module Motion {
  import opened Images

  datatype Channel = Red | Green | Blue

  function Get(p: Pixel, ch: Channel): Sample {
    match ch
    case Red => p.red
    case Green => p.green
    case Blue => p.blue
  }

  // The weights table: every entry is zero or a power of two.
  function Weight(ii: int, jj: int): real {
    if ii == 0 && jj == 0 then 0.5
    else if ii == 1 && jj == 1 then 0.25
    else if ii == 2 && jj == 2 then 0.125
    else if (ii == 0 && jj == 2) || (ii == 2 && jj == 0) then 0.0
    else 0.03125
  }

  // One weighted sample joins a sum that is an int: the double it makes is truncated.
  function Accumulate(sum: int, sample: int, weight: real): int {
    (sum as real + sample as real * weight).Floor
  }

  // The sum of weighted_combo for one channel after its first k of nine turns.
  ghost function Partial(dim: int, i: int, j: int, src: seq<Pixel>, ch: Channel, k: int): int
    requires OnGrid(i, j, dim) && dim * dim <= |src| && 0 <= k <= 9
  {
    if k == 0 then 0
    else
      var ii, jj, sum := (k - 1) / 3, (k - 1) % 3, Partial(dim, i, j, src, ch, k - 1);
      if i + ii < dim && j + jj < dim then
        RidxInGrid(i + ii, j + jj, dim);
        Accumulate(sum, Get(src[Ridx(i + ii, j + jj, dim)], ch), Weight(ii, jj))
      else sum
  }

  ghost function Combo(dim: int, i: int, j: int, src: seq<Pixel>, ch: Channel): int
    requires OnGrid(i, j, dim) && dim * dim <= |src|
  {
    Partial(dim, i, j, src, ch, 9)
  }

  lemma PartialStep(dim: int, i: int, j: int, src: seq<Pixel>, ch: Channel, ii: int, jj: int)
    requires OnGrid(i, j, dim) && dim * dim <= |src| && 0 <= ii < 3 && 0 <= jj < 3
    ensures OnGrid(i + ii, j + jj, dim) ==> 0 <= Ridx(i + ii, j + jj, dim) < |src|
    ensures Partial(dim, i, j, src, ch, 3 * ii + jj + 1) ==
            var sum := Partial(dim, i, j, src, ch, 3 * ii + jj);
            if OnGrid(i + ii, j + jj, dim) then
              Accumulate(sum, Get(src[Ridx(i + ii, j + jj, dim)], ch), Weight(ii, jj))
            else sum
  {
    assert (3 * ii + jj) / 3 == ii && (3 * ii + jj) % 3 == jj;
    if OnGrid(i + ii, j + jj, dim) {
      RidxInGrid(i + ii, j + jj, dim);
    }
  }

  lemma PartialZero(dim: int, i: int, j: int, src: seq<Pixel>)
    requires OnGrid(i, j, dim) && dim * dim <= |src|
    ensures forall ch :: Partial(dim, i, j, src, ch, 0) == 0
  {
  }

  // assign_sum_to_pixel casts each sum to unsigned short.
  ghost predicate ComboPixel(dim: int, i: int, j: int, src: seq<Pixel>, p: Pixel) {
    OnGrid(i, j, dim) && dim * dim <= |src| &&
    forall ch :: Get(p, ch) == Combo(dim, i, j, src, ch) % 0x1_0000
  }

  method WeightedCombo(dim: int, i: int, j: int, src: array<Pixel>) returns (p: Pixel)
    requires OnGrid(i, j, dim) && dim * dim <= src.Length
    ensures ComboPixel(dim, i, j, src[..], p)
  {
    hide Partial, Accumulate, Weight, Ridx;
    PartialZero(dim, i, j, src[..]);
    var red, green, blue := 0, 0, 0;
    var ii := 0;
    while ii < 3
      invariant 0 <= ii <= 3
      invariant red == Partial(dim, i, j, src[..], Red, 3 * ii)
      invariant green == Partial(dim, i, j, src[..], Green, 3 * ii)
      invariant blue == Partial(dim, i, j, src[..], Blue, 3 * ii)
    {
      var jj := 0;
      while jj < 3
        invariant 0 <= jj <= 3
        invariant red == Partial(dim, i, j, src[..], Red, 3 * ii + jj)
        invariant green == Partial(dim, i, j, src[..], Green, 3 * ii + jj)
        invariant blue == Partial(dim, i, j, src[..], Blue, 3 * ii + jj)
      {
        PartialStep(dim, i, j, src[..], Red, ii, jj);
        PartialStep(dim, i, j, src[..], Green, ii, jj);
        PartialStep(dim, i, j, src[..], Blue, ii, jj);
        if i + ii < dim && j + jj < dim {
          var q := src[Ridx(i + ii, j + jj, dim)];
          red := Accumulate(red, q.red, Weight(ii, jj));
          green := Accumulate(green, q.green, Weight(ii, jj));
          blue := Accumulate(blue, q.blue, Weight(ii, jj));
        }
        jj := jj + 1;
      }
      ii := ii + 1;
    }
    p := Pixel(red % 0x1_0000, green % 0x1_0000, blue % 0x1_0000);
    forall ch ensures Get(p, ch) == Combo(dim, i, j, src[..], ch) % 0x1_0000 {
      match ch case Red => case Green => case Blue =>
    }
  }

  ghost predicate MotionDone(dim: int, src: seq<Pixel>, dst: seq<Pixel>, i: int, j: int) {
    0 <= Ridx(i, j, dim) < |dst| && ComboPixel(dim, i, j, src, dst[Ridx(i, j, dim)])
  }

  method NaiveMotion(dim: int, src: array<Pixel>, dst: array<Pixel>)
    requires 0 < dim && src != dst && dim * dim <= src.Length && dim * dim <= dst.Length
    modifies dst
    ensures forall i, j :: OnGrid(i, j, dim) ==> MotionDone(dim, src[..], dst[..], i, j)
    ensures forall k :: dim * dim <= k < dst.Length ==> dst[k] == old(dst[k])
  {
    hide Ridx, ComboPixel;
    GridOk(dim);
    var i := 0;
    while i < dim
      invariant 0 <= i <= dim
      invariant forall x, y :: OnGrid(x, y, dim) && x < i ==> MotionDone(dim, src[..], dst[..], x, y)
      invariant forall k :: dim * dim <= k < dst.Length ==> dst[k] == old(dst[k])
    {
      var j := 0;
      while j < dim
        invariant 0 <= j <= dim
        invariant forall x, y :: OnGrid(x, y, dim) && (x < i || (x == i && y < j)) ==>
                    MotionDone(dim, src[..], dst[..], x, y)
        invariant forall k :: dim * dim <= k < dst.Length ==> dst[k] == old(dst[k])
      {
        var p := WeightedCombo(dim, i, j, src);
        assert OnGrid(i, j, dim);
        dst[Ridx(i, j, dim)] := p;
        j := j + 1;
      }
      i := i + 1;
    }
  }

  // ------------------------------------------------------- shifts for weights

  const BLACK := Pixel(0, 0, 0)

  ghost function Tap(dim: int, i: int, j: int, src: seq<Pixel>): Pixel {
    if OnGrid(i, j, dim) && 0 <= Ridx(i, j, dim) < |src| then src[Ridx(i, j, dim)] else BLACK
  }

  function Shr(sample: int, k: int): int
    requires k != 0
  {
    sample / k
  }

  // The weight at (ii, jj) is one over this, or zero.
  function Divisor(ii: int, jj: int): int {
    if ii == 0 && jj == 0 then 2
    else if ii == 1 && jj == 1 then 4
    else if ii == 2 && jj == 2 then 8
    else if (ii == 0 && jj == 2) || (ii == 2 && jj == 0) then 0
    else 32
  }

  // The seven weighted neighbours, at 1/2, 1/4, 1/8 and four times 1/32.
  function Mix(p: Pixel, quarter: Pixel, eighth: Pixel, a: Pixel, b: Pixel, c: Pixel, d: Pixel, ch: Channel): int {
    Shr(Get(p, ch), 2) + Shr(Get(quarter, ch), 4) + Shr(Get(eighth, ch), 8)
    + Shr(Get(a, ch), 32) + Shr(Get(b, ch), 32) + Shr(Get(c, ch), 32) + Shr(Get(d, ch), 32)
  }

  ghost function MixAt(dim: int, i: int, j: int, src: seq<Pixel>, ch: Channel): int {
    Mix(Tap(dim, i, j, src), Tap(dim, i + 1, j + 1, src), Tap(dim, i + 2, j + 2, src),
        Tap(dim, i, j + 1, src), Tap(dim, i + 1, j, src), Tap(dim, i + 1, j + 2, src), Tap(dim, i + 2, j + 1, src), ch)
  }

  lemma MixFits(p: Pixel, q: Pixel, e: Pixel, a: Pixel, b: Pixel, c: Pixel, d: Pixel, ch: Channel)
    ensures 0 <= Mix(p, q, e, a, b, c, d, ch) < 0x1_0000
  {
    hide Shr, Get;
    ShrBound(Get(p, ch), 2);
    ShrBound(Get(q, ch), 4);
    ShrBound(Get(e, ch), 8);
    ShrBound(Get(a, ch), 32);
    ShrBound(Get(b, ch), 32);
    ShrBound(Get(c, ch), 32);
    ShrBound(Get(d, ch), 32);
  }

  lemma ShrBound(sample: Sample, k: int)
    requires 0 < k
    ensures 0 <= Shr(sample, k) && k * Shr(sample, k) <= sample
  {
  }

  // Truncating the double sum is adding the shifted sample.
  lemma AccumulateShifts(sum: int, sample: int, k: int)
    requires 0 <= sample && k in {2, 4, 8, 32}
    ensures Accumulate(sum, sample, 1.0 / k as real) == sum + sample / k
  {
  }

  // The nine turns add up to the seven shifts; out-of-image neighbours add nothing.
  lemma ComboIsMix(dim: int, i: int, j: int, src: seq<Pixel>, ch: Channel)
    requires OnGrid(i, j, dim) && dim * dim <= |src|
    ensures Combo(dim, i, j, src, ch) == MixAt(dim, i, j, src, ch)
  {
    PartialZero(dim, i, j, src);
    hide Partial, Tap, Ridx, Get, Shr;
    ComboRow(dim, i, j, src, ch, 0);
    ComboRow(dim, i, j, src, ch, 1);
    ComboRow(dim, i, j, src, ch, 2);
  }

  // A channel of the source at row x and column y, and nothing outside the image.
  ghost function Sample(dim: int, src: seq<Pixel>, ch: Channel, x: int, y: int): int {
    if 0 <= x < dim && 0 <= y < dim && 0 <= x * dim + y < |src| then
      var p := src[x * dim + y];
      (match ch case Red => p.red case Green => p.green case Blue => p.blue)
    else 0
  }

  // The weighted combination in plain terms: half of the pixel, a quarter and an eighth along the diagonal,
  // and a thirty-second of four neighbours, each rounded down.
  lemma CombinationIs(dim: int, i: int, j: int, src: seq<Pixel>, ch: Channel)
    requires OnGrid(i, j, dim) && dim * dim <= |src|
    ensures Combo(dim, i, j, src, ch) ==
            Sample(dim, src, ch, i, j) / 2 + Sample(dim, src, ch, i + 1, j + 1) / 4
            + Sample(dim, src, ch, i + 2, j + 2) / 8
            + Sample(dim, src, ch, i, j + 1) / 32 + Sample(dim, src, ch, i + 1, j) / 32
            + Sample(dim, src, ch, i + 1, j + 2) / 32 + Sample(dim, src, ch, i + 2, j + 1) / 32
  {
    hide Tap, Sample, Get, Combo;
    ComboIsMix(dim, i, j, src, ch);
    SampleIs(dim, src, ch, i, j);
    SampleIs(dim, src, ch, i + 1, j + 1);
    SampleIs(dim, src, ch, i + 2, j + 2);
    SampleIs(dim, src, ch, i, j + 1);
    SampleIs(dim, src, ch, i + 1, j);
    SampleIs(dim, src, ch, i + 1, j + 2);
    SampleIs(dim, src, ch, i + 2, j + 1);
  }

  lemma SampleIs(dim: int, src: seq<Pixel>, ch: Channel, x: int, y: int)
    ensures Sample(dim, src, ch, x, y) == Get(Tap(dim, x, y, src), ch)
  {
  }

  ghost function Turn(dim: int, i: int, j: int, src: seq<Pixel>, ch: Channel, ii: int, jj: int): int {
    if Divisor(ii, jj) == 0 then 0 else Shr(Get(Tap(dim, i + ii, j + jj, src), ch), Divisor(ii, jj))
  }

  lemma ComboRow(dim: int, i: int, j: int, src: seq<Pixel>, ch: Channel, ii: int)
    requires OnGrid(i, j, dim) && dim * dim <= |src| && 0 <= ii < 3
    ensures Partial(dim, i, j, src, ch, 3 * ii + 3) ==
            Partial(dim, i, j, src, ch, 3 * ii)
            + Turn(dim, i, j, src, ch, ii, 0) + Turn(dim, i, j, src, ch, ii, 1) + Turn(dim, i, j, src, ch, ii, 2)
  {
    hide Partial, Turn;
    ComboTurn(dim, i, j, src, ch, ii, 0);
    ComboTurn(dim, i, j, src, ch, ii, 1);
    ComboTurn(dim, i, j, src, ch, ii, 2);
  }

  lemma ComboTurn(dim: int, i: int, j: int, src: seq<Pixel>, ch: Channel, ii: int, jj: int)
    requires OnGrid(i, j, dim) && dim * dim <= |src| && 0 <= ii < 3 && 0 <= jj < 3
    ensures Partial(dim, i, j, src, ch, 3 * ii + jj + 1) ==
            Partial(dim, i, j, src, ch, 3 * ii + jj) + Turn(dim, i, j, src, ch, ii, jj)
  {
    hide Ridx, Partial, Accumulate;
    PartialStep(dim, i, j, src, ch, ii, jj);
    var sum, k := Partial(dim, i, j, src, ch, 3 * ii + jj), Divisor(ii, jj);
    var sample := Get(Tap(dim, i + ii, j + jj, src), ch);
    if k == 0 {
      AccumulateZero(sum, sample);
    } else {
      AccumulateShifts(sum, sample, k);
    }
  }

  lemma AccumulateZero(sum: int, sample: int)
    ensures Accumulate(sum, sample, 0.0) == sum
  {
  }

  // A pixel is the blur of (i, j) exactly when its channels are the seven shifts; no sum leaves 16 bits.
  lemma ComboPixelIffMix(dim: int, i: int, j: int, src: seq<Pixel>, p: Pixel)
    requires OnGrid(i, j, dim) && dim * dim <= |src|
    ensures ComboPixel(dim, i, j, src, p) <==> forall ch :: Get(p, ch) == MixAt(dim, i, j, src, ch)
    ensures forall ch :: Combo(dim, i, j, src, ch) < 0x1_0000
  {
    hide Ridx, Combo, Tap;
    forall ch
      ensures Combo(dim, i, j, src, ch) == MixAt(dim, i, j, src, ch) < 0x1_0000 && 0 <= MixAt(dim, i, j, src, ch)
    {
      ComboIsMix(dim, i, j, src, ch);
      MixFits(Tap(dim, i, j, src), Tap(dim, i + 1, j + 1, src), Tap(dim, i + 2, j + 2, src), Tap(dim, i, j + 1, src),
              Tap(dim, i + 1, j, src), Tap(dim, i + 1, j + 2, src), Tap(dim, i + 2, j + 1, src), ch);
    }
  }

  // -------------------------------------------------------- the tiled kernel

  // Memory past the end of the image is whatever it is.
  function Read(src: array<Pixel>, beyond: int -> Pixel, k: int): Pixel
    reads src
  {
    if 0 <= k < src.Length then src[k] else beyond(k)
  }

  // One channel after another, each cast to unsigned short.
  function Store(sums: Channel -> int): Pixel {
    Pixel(sums(Red) % 0x1_0000, sums(Green) % 0x1_0000, sums(Blue) % 0x1_0000)
  }

  lemma StoreGets(sums: Channel -> int)
    requires forall ch :: 0 <= sums(ch) < 0x1_0000
    ensures forall ch :: Get(Store(sums), ch) == sums(ch)
  {
  }

  // A stored pixel whose sums are the seven shifts is the blur.
  lemma StoredIsCombo(dim: int, i: int, j: int, src: seq<Pixel>, sums: Channel -> int)
    requires OnGrid(i, j, dim) && dim * dim <= |src|
    requires forall ch :: sums(ch) == MixAt(dim, i, j, src, ch)
    ensures ComboPixel(dim, i, j, src, Store(sums))
  {
    hide Ridx, Tap, Store;
    forall ch ensures 0 <= sums(ch) < 0x1_0000 {
      MixFits(Tap(dim, i, j, src), Tap(dim, i + 1, j + 1, src), Tap(dim, i + 2, j + 2, src), Tap(dim, i, j + 1, src),
              Tap(dim, i + 1, j, src), Tap(dim, i + 1, j + 2, src), Tap(dim, i + 2, j + 1, src), ch);
    }
    StoreGets(sums);
    ComboPixelIffMix(dim, i, j, src, Store(sums));
  }

  ghost predicate Interior(dim: int, i: int, j: int) { 0 <= i < dim - 2 && 0 <= j < dim - 2 }

  // What a pass over some places of dst keeps.
  twostate predicate Untouched(dim: int, dst: array<Pixel>, pass: (int, int) -> bool)
    reads dst
  {
    && (forall i, j :: OnGrid(i, j, dim) && !pass(i, j) && 0 <= Ridx(i, j, dim) < dst.Length ==>
          dst[Ridx(i, j, dim)] == old(dst[Ridx(i, j, dim)]))
    && (forall k :: 0 <= k < dst.Length && dim * dim <= k ==> dst[k] == old(dst[k]))
  }

  // The statement at the heart of the tiled loops, at pixel (i, j).
  method BlurPixel(dim: int, src: array<Pixel>, beyond: int -> Pixel, dst: array<Pixel>, i: int, j: int)
    requires OnGrid(i, j, dim) && src != dst && dim * dim <= src.Length && dim * dim <= dst.Length
    modifies dst
    ensures Interior(dim, i, j) ==> MotionDone(dim, src[..], dst[..], i, j)
    ensures Untouched(dim, dst, (x, y) => x == i && y == j)
  {
    hide Ridx, Get, Shr, Store, ComboPixel;
    GridOk(dim);
    var i1, j1, i2, j2 := i + 1, j + 1, i + 2, j + 2;
    var p, q, e := Read(src, beyond, Ridx(i, j, dim)), Read(src, beyond, Ridx(i1, j1, dim)),
                   Read(src, beyond, Ridx(i2, j2, dim));
    var a, b := Read(src, beyond, Ridx(i, j1, dim)), Read(src, beyond, Ridx(i1, j, dim));
    var c, d := Read(src, beyond, Ridx(i1, j2, dim)), Read(src, beyond, Ridx(i2, j1, dim));
    var sums := ch => Shr(Get(p, ch), 2) + Shr(Get(q, ch), 4) + Shr(Get(e, ch), 8) + Shr(Get(a, ch), 32)
                      + Shr(Get(b, ch), 32) + Shr(Get(c, ch), 32) + Shr(Get(d, ch), 32);
    dst[Ridx(i, j, dim)] := Store(sums);
    if Interior(dim, i, j) {
      StoredIsCombo(dim, i, j, src[..], sums);
    }
  }

  ghost predicate Blurred(dim: int, src: seq<Pixel>, dst: seq<Pixel>, i: int, j: int, jjj: int, iii: int) {
    forall x, y :: Interior(dim, x, y) && TilesPassed(i, j, jjj, iii, x, y) ==> MotionDone(dim, src, dst, x, y)
  }

  method BlurTile(dim: int, src: array<Pixel>, beyond: int -> Pixel, dst: array<Pixel>, ii: int, jj: int)
    requires src != dst && dim * dim <= src.Length && dim * dim <= dst.Length
    requires 0 <= ii && ii + 8 <= dim && 0 <= jj && jj + 8 <= dim
    requires Blurred(dim, src[..], dst[..], ii, jj, jj, ii)
    modifies dst
    ensures Blurred(dim, src[..], dst[..], ii, jj + 8, jj + 8, ii)
    ensures forall k :: 0 <= k < dst.Length && dim * dim <= k ==> dst[k] == old(dst[k])
  {
    hide Ridx, ComboPixel;
    GridOk(dim);
    var jjj := jj;
    while jjj < jj + 8
      invariant jj <= jjj <= jj + 8
      invariant Blurred(dim, src[..], dst[..], ii, jj, jjj, ii)
      invariant forall k :: 0 <= k < dst.Length && dim * dim <= k ==> dst[k] == old(dst[k])
    {
      var iii := ii;
      while iii < ii + 8
        invariant ii <= iii <= ii + 8
        invariant Blurred(dim, src[..], dst[..], ii, jj, jjj, iii)
        invariant forall k :: 0 <= k < dst.Length && dim * dim <= k ==> dst[k] == old(dst[k])
      {
        BlurOne(dim, src, beyond, dst, ii, jj, jjj, iii);
        iii := iii + 1;
      }
      jjj := jjj + 1;
    }
  }

  method BlurOne(dim: int, src: array<Pixel>, beyond: int -> Pixel, dst: array<Pixel>,
                 ghost ii: int, ghost jj: int, jjj: int, iii: int)
    requires OnGrid(iii, jjj, dim) && src != dst && dim * dim <= src.Length && dim * dim <= dst.Length
    requires ii <= iii < ii + 8 && jj <= jjj < jj + 8 && Blurred(dim, src[..], dst[..], ii, jj, jjj, iii)
    modifies dst
    ensures Blurred(dim, src[..], dst[..], ii, jj, jjj, iii + 1)
    ensures forall k :: 0 <= k < dst.Length && dim * dim <= k ==> dst[k] == old(dst[k])
  {
    hide Ridx, ComboPixel;
    GridOk(dim);
    ghost var was := dst[..];
    BlurPixel(dim, src, beyond, dst, iii, jjj);
    forall x, y | Interior(dim, x, y) && TilesPassed(ii, jj, jjj, iii + 1, x, y)
      ensures MotionDone(dim, src[..], dst[..], x, y)
    {
      if x != iii || y != jjj {
        assert MotionDone(dim, src[..], was, x, y) && OnGrid(x, y, dim);
      }
    }
  }

  // Case 1 of motion: the six nested loops.
  method BlurTiles(dim: int, src: array<Pixel>, beyond: int -> Pixel, dst: array<Pixel>)
    requires 2 <= dim && dim % 8 <= 2 && src != dst && dim * dim <= src.Length && dim * dim <= dst.Length
    modifies dst
    ensures forall x, y :: Interior(dim, x, y) ==> MotionDone(dim, src[..], dst[..], x, y)
    ensures forall k :: 0 <= k < dst.Length && dim * dim <= k ==> dst[k] == old(dst[k])
  {
    hide MotionDone;
    var i := 0;
    ghost var t := 0;
    while i < dim - 2
      invariant 0 <= t && i == 8 * t && Blurred(dim, src[..], dst[..], i, 0, 0, i)
      invariant forall k :: 0 <= k < dst.Length && dim * dim <= k ==> dst[k] == old(dst[k])
    {
      TileInside(dim, t);
      BlurBand(dim, src, beyond, dst, i);
      i, t := i + 8, t + 1;
    }
  }

  // The loops inside the outermost one: a band of eight rows.
  method BlurBand(dim: int, src: array<Pixel>, beyond: int -> Pixel, dst: array<Pixel>, i: int)
    requires 2 <= dim && dim % 8 <= 2 && src != dst && dim * dim <= src.Length && dim * dim <= dst.Length
    requires 0 <= i && i + 8 <= dim && Blurred(dim, src[..], dst[..], i, 0, 0, i)
    modifies dst
    ensures Blurred(dim, src[..], dst[..], i + 8, 0, 0, i + 8)
    ensures forall k :: 0 <= k < dst.Length && dim * dim <= k ==> dst[k] == old(dst[k])
  {
    hide MotionDone;
    var j := 0;
    ghost var t := 0;
    while j < dim - 2
      invariant 0 <= t && j == 8 * t && Blurred(dim, src[..], dst[..], i, j, j, i)
      invariant forall k :: 0 <= k < dst.Length && dim * dim <= k ==> dst[k] == old(dst[k])
    {
      TileInside(dim, t);
      var jj := j;
      while jj < j + 8
        invariant jj == j || jj == j + 8
        invariant Blurred(dim, src[..], dst[..], i, jj, jj, i)
        invariant forall k :: 0 <= k < dst.Length && dim * dim <= k ==> dst[k] == old(dst[k])
      {
        var ii := i;
        while ii < i + 8
          invariant ii == i || ii == i + 8
          invariant var jDone := if ii == i then jj else jj + 8; Blurred(dim, src[..], dst[..], i, jDone, jDone, i)
          invariant forall k :: 0 <= k < dst.Length && dim * dim <= k ==> dst[k] == old(dst[k])
        {
          BlurTile(dim, src, beyond, dst, ii, jj);
          ii := ii + 8;
        }
        jj := jj + 8;
      }
      j, t := j + 8, t + 1;
    }
  }

  lemma TileInside(dim: int, t: int)
    requires dim % 8 <= 2 && 8 * t < dim - 2
    ensures 8 * t + 8 <= dim
  {
  }

  // ------------------------------------------------------------- edge passes

  // No finished pixel of was is spoilt in now.
  ghost predicate Keeps(dim: int, src: seq<Pixel>, was: seq<Pixel>, now: seq<Pixel>) {
    && |now| == |was|
    && (forall x, y :: OnGrid(x, y, dim) && MotionDone(dim, src, was, x, y) ==> MotionDone(dim, src, now, x, y))
    && (forall k :: 0 <= k < |was| && dim * dim <= k ==> now[k] == was[k])
  }

  lemma BlackTaps(ch: Channel)
    ensures Shr(Get(BLACK, ch), 2) == Shr(Get(BLACK, ch), 4) == Shr(Get(BLACK, ch), 8) == Shr(Get(BLACK, ch), 32) == 0
  {
  }

  method PutPixel(dim: int, src: array<Pixel>, dst: array<Pixel>, i: int, j: int, sums: Channel -> int)
    requires OnGrid(i, j, dim) && src != dst && dim * dim <= src.Length && dim * dim <= dst.Length
    requires forall ch :: sums(ch) == MixAt(dim, i, j, src[..], ch)
    modifies dst
    ensures MotionDone(dim, src[..], dst[..], i, j) && Keeps(dim, src[..], old(dst[..]), dst[..])
  {
    hide Ridx, Get, Shr, Store, ComboPixel;
    GridOk(dim);
    StoredIsCombo(dim, i, j, src[..], sums);
    dst[Ridx(i, j, dim)] := Store(sums);
  }

  // Case 2: the bottom right pixel.
  method Corner(dim: int, src: array<Pixel>, dst: array<Pixel>)
    requires 2 <= dim && src != dst && dim * dim <= src.Length && dim * dim <= dst.Length
    modifies dst
    ensures MotionDone(dim, src[..], dst[..], dim - 1, dim - 1) && Keeps(dim, src[..], old(dst[..]), dst[..])
  {
    hide Ridx, Get, Shr;
    GridOk(dim);
    var p := src[Ridx(dim - 1, dim - 1, dim)];
    var sums := ch => Shr(Get(p, ch), 2);
    forall ch ensures sums(ch) == MixAt(dim, dim - 1, dim - 1, src[..], ch) {
      BlackTaps(ch);
    }
    PutPixel(dim, src, dst, dim - 1, dim - 1, sums);
  }

  // Case 3: the last column.
  method LastColumn(dim: int, src: array<Pixel>, dst: array<Pixel>)
    requires 2 <= dim && src != dst && dim * dim <= src.Length && dim * dim <= dst.Length
    modifies dst
    ensures forall x, y :: 0 <= x < dim - 1 && y == dim - 1 ==> MotionDone(dim, src[..], dst[..], x, y)
    ensures Keeps(dim, src[..], old(dst[..]), dst[..])
  {
    hide Ridx, Get, Shr, MotionDone;
    GridOk(dim);
    var i := 0;
    while i < dim - 1
      invariant 0 <= i <= dim - 1 && Keeps(dim, src[..], old(dst[..]), dst[..])
      invariant forall x, y :: 0 <= x < i && y == dim - 1 ==> MotionDone(dim, src[..], dst[..], x, y)
    {
      var p, b := src[Ridx(i, dim - 1, dim)], src[Ridx(i + 1, dim - 1, dim)];
      var sums := ch => Shr(Get(p, ch), 2) + Shr(Get(b, ch), 32);
      forall ch ensures sums(ch) == MixAt(dim, i, dim - 1, src[..], ch) {
        BlackTaps(ch);
      }
      PutPixel(dim, src, dst, i, dim - 1, sums);
      i := i + 1;
    }
  }

  // Case 4: the last row.
  method LastRow(dim: int, src: array<Pixel>, dst: array<Pixel>)
    requires 2 <= dim && src != dst && dim * dim <= src.Length && dim * dim <= dst.Length
    modifies dst
    ensures forall x, y :: x == dim - 1 && 0 <= y < dim - 1 ==> MotionDone(dim, src[..], dst[..], x, y)
    ensures Keeps(dim, src[..], old(dst[..]), dst[..])
  {
    hide Ridx, Get, Shr, MotionDone;
    GridOk(dim);
    var i := 0;
    while i < dim - 1
      invariant 0 <= i <= dim - 1 && Keeps(dim, src[..], old(dst[..]), dst[..])
      invariant forall x, y :: x == dim - 1 && 0 <= y < i ==> MotionDone(dim, src[..], dst[..], x, y)
    {
      var p, a := src[Ridx(dim - 1, i, dim)], src[Ridx(dim - 1, i + 1, dim)];
      var sums := ch => Shr(Get(p, ch), 2) + Shr(Get(a, ch), 32);
      forall ch ensures sums(ch) == MixAt(dim, dim - 1, i, src[..], ch) {
        BlackTaps(ch);
      }
      PutPixel(dim, src, dst, dim - 1, i, sums);
      i := i + 1;
    }
  }

  // Case 5: the column before the last.
  method ColumnBeforeLast(dim: int, src: array<Pixel>, dst: array<Pixel>)
    requires 2 <= dim && src != dst && dim * dim <= src.Length && dim * dim <= dst.Length
    modifies dst
    ensures forall x, y :: 0 <= x < dim - 2 && y == dim - 2 ==> MotionDone(dim, src[..], dst[..], x, y)
    ensures Keeps(dim, src[..], old(dst[..]), dst[..])
  {
    hide Ridx, Get, Shr, MotionDone;
    GridOk(dim);
    var i := 0;
    while i < dim - 2
      invariant 0 <= i <= dim - 2 && Keeps(dim, src[..], old(dst[..]), dst[..])
      invariant forall x, y :: 0 <= x < i && y == dim - 2 ==> MotionDone(dim, src[..], dst[..], x, y)
    {
      var p, b, a := src[Ridx(i, dim - 2, dim)], src[Ridx(i + 1, dim - 2, dim)], src[Ridx(i, dim - 1, dim)];
      var q, d := src[Ridx(i + 1, dim - 1, dim)], src[Ridx(i + 2, dim - 1, dim)];
      var sums := ch =>
        Shr(Get(p, ch), 2) + Shr(Get(b, ch), 32) + Shr(Get(a, ch), 32) + Shr(Get(q, ch), 4) + Shr(Get(d, ch), 32);
      forall ch ensures sums(ch) == MixAt(dim, i, dim - 2, src[..], ch) {
        BlackTaps(ch);
      }
      PutPixel(dim, src, dst, i, dim - 2, sums);
      i := i + 1;
    }
  }

  // Case 6: the row before the last.
  method RowBeforeLast(dim: int, src: array<Pixel>, dst: array<Pixel>)
    requires 2 <= dim && src != dst && dim * dim <= src.Length && dim * dim <= dst.Length
    modifies dst
    ensures forall x, y :: x == dim - 2 && 0 <= y < dim - 2 ==> MotionDone(dim, src[..], dst[..], x, y)
    ensures Keeps(dim, src[..], old(dst[..]), dst[..])
  {
    hide Ridx, Get, Shr, MotionDone;
    GridOk(dim);
    var i := 0;
    while i < dim - 2
      invariant 0 <= i <= dim - 2 && Keeps(dim, src[..], old(dst[..]), dst[..])
      invariant forall x, y :: x == dim - 2 && 0 <= y < i ==> MotionDone(dim, src[..], dst[..], x, y)
    {
      var p, b, a := src[Ridx(dim - 2, i, dim)], src[Ridx(dim - 1, i, dim)], src[Ridx(dim - 2, i + 1, dim)];
      var q, c := src[Ridx(dim - 1, i + 1, dim)], src[Ridx(dim - 1, i + 2, dim)];
      var sums := ch =>
        Shr(Get(p, ch), 2) + Shr(Get(b, ch), 32) + Shr(Get(a, ch), 32) + Shr(Get(q, ch), 4) + Shr(Get(c, ch), 32);
      forall ch ensures sums(ch) == MixAt(dim, dim - 2, i, src[..], ch) {
        BlackTaps(ch);
      }
      PutPixel(dim, src, dst, dim - 2, i, sums);
      i := i + 1;
    }
  }

  // The special case: the last pixel with four neighbours.
  method LastFour(dim: int, src: array<Pixel>, dst: array<Pixel>)
    requires 2 <= dim && src != dst && dim * dim <= src.Length && dim * dim <= dst.Length
    modifies dst
    ensures MotionDone(dim, src[..], dst[..], dim - 2, dim - 2) && Keeps(dim, src[..], old(dst[..]), dst[..])
  {
    hide Ridx, Get, Shr;
    GridOk(dim);
    var p, a := src[Ridx(dim - 2, dim - 2, dim)], src[Ridx(dim - 2, dim - 1, dim)];
    var b, q := src[Ridx(dim - 1, dim - 2, dim)], src[Ridx(dim - 1, dim - 1, dim)];
    var sums := ch => Shr(Get(p, ch), 2) + Shr(Get(a, ch), 32) + Shr(Get(b, ch), 32) + Shr(Get(q, ch), 4);
    forall ch ensures sums(ch) == MixAt(dim, dim - 2, dim - 2, src[..], ch) {
      BlackTaps(ch);
    }
    PutPixel(dim, src, dst, dim - 2, dim - 2, sums);
  }

  // motion, whatever lies beyond the end of src.
  method Motion(dim: int, src: array<Pixel>, beyond: int -> Pixel, dst: array<Pixel>)
    requires 2 <= dim && dim % 8 <= 2 && src != dst && dim * dim <= src.Length && dim * dim <= dst.Length
    modifies dst
    ensures forall i, j :: OnGrid(i, j, dim) ==> MotionDone(dim, src[..], dst[..], i, j)
    ensures forall k :: 0 <= k < dst.Length && dim * dim <= k ==> dst[k] == old(dst[k])
  {
    hide MotionDone;
    BlurTiles(dim, src, beyond, dst);
    Corner(dim, src, dst);
    LastColumn(dim, src, dst);
    LastRow(dim, src, dst);
    ColumnBeforeLast(dim, src, dst);
    RowBeforeLast(dim, src, dst);
    LastFour(dim, src, dst);
  }

  // The contract the two kernels share leaves one image.
  lemma MotionKernelsAgree(dim: int, src: seq<Pixel>, was: seq<Pixel>, a: seq<Pixel>, b: seq<Pixel>)
    requires 0 < dim && dim * dim <= |was| == |a| == |b|
    requires forall i, j :: OnGrid(i, j, dim) ==> MotionDone(dim, src, a, i, j)
    requires forall i, j :: OnGrid(i, j, dim) ==> MotionDone(dim, src, b, i, j)
    requires forall k :: dim * dim <= k < |was| ==> a[k] == was[k] && b[k] == was[k]
    ensures a == b
  {
    forall i, j | OnGrid(i, j, dim) ensures 0 <= Ridx(i, j, dim) < |a| && a[Ridx(i, j, dim)] == b[Ridx(i, j, dim)] {
      assert MotionDone(dim, src, a, i, j) && MotionDone(dim, src, b, i, j);
      SamePixel(dim, i, j, src, a[Ridx(i, j, dim)], b[Ridx(i, j, dim)]);
    }
    SameAtEveryPlace(a, b, dim);
  }

  lemma SamePixel(dim: int, i: int, j: int, src: seq<Pixel>, p: Pixel, q: Pixel)
    requires ComboPixel(dim, i, j, src, p) && ComboPixel(dim, i, j, src, q)
    ensures p == q
  {
    assert Get(p, Red) == Get(q, Red) && Get(p, Green) == Get(q, Green) && Get(p, Blue) == Get(q, Blue);
  }

  // Pixel jjj, iii of tile i, j, as the tiled loops visit them.
  ghost predicate Visited(dim: int, i: int, j: int, jjj: int, iii: int) {
    0 <= i < dim - 2 && i % 8 == 0 && 0 <= j < dim - 2 && j % 8 == 0 && j <= jjj < j + 8 && i <= iii < i + 8
  }

  // The tiles write inside the image exactly for these sizes; for the others one write is past its end.
  lemma TilesFitIff(dim: int)
    requires 2 <= dim
    ensures dim % 8 <= 2 <==> forall i, j, jjj, iii :: Visited(dim, i, j, jjj, iii) ==> OnGrid(iii, jjj, dim)
    ensures dim % 8 > 2 ==> exists i, iii :: Visited(dim, i, 0, 0, iii) && Ridx(iii, 0, dim) >= dim * dim
  {
    if dim % 8 <= 2 {
      forall i, j, jjj, iii | Visited(dim, i, j, jjj, iii) ensures OnGrid(iii, jjj, dim) {
        TileInside(dim, i / 8);
        TileInside(dim, j / 8);
      }
    } else {
      var i := dim - dim % 8;
      assert Visited(dim, i, 0, 0, dim);
      assert Ridx(dim, 0, dim) == dim * dim;
    }
  }

  // The special case addresses a pixel of the image exactly when there are two rows.
  lemma LastFourFitsIff(dim: int)
    requires 0 < dim
    ensures 2 <= dim <==> 0 <= Ridx(dim - 2, dim - 2, dim)
  {
    if dim == 1 {
      assert Ridx(-1, -1, 1) == -2;
    } else {
      assert 0 <= (dim - 2) * dim;
    }
  }
}
