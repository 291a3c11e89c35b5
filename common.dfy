/**
 * Shared vocabulary of the segmentation-loss model: label maps, the error
 * result of a loss call, and a few facts about integer division that the
 * index arithmetic of the resampling and grid-cell layout relies on.
 */
module Common {

  /** A loss either yields a value or raises (the source raises NotImplementedError). */
  datatype Result<T> = Ok(value: T) | Err(message: string)

  /** One label map: `h` rows of `w` integer labels. */
  type LabelMap = seq<seq<int>>

  /** A batch of label maps, the B x H x W target tensor. */
  type LabelBatch = seq<LabelMap>

  ghost predicate IsMap(m: LabelMap, h: nat, w: nat)
  {
    |m| == h && forall i :: 0 <= i < |m| ==> |m[i]| == w
  }

  ghost predicate IsBatch(t: LabelBatch, b: nat, h: nat, w: nat)
  {
    |t| == b && forall k :: 0 <= k < |t| ==> IsMap(t[k], h, w)
  }

  /** Row-major flattening of one map, the order of `view(-1)` and of `histc`'s reading. */
  function Flatten(m: LabelMap): (s: seq<int>)
    ensures forall v :: v in s ==> exists r :: 0 <= r < |m| && v in m[r]
  {
    if |m| == 0 then []
    else
      var n := |m| - 1;
      assert forall r :: 0 <= r < n ==> m[..n][r] == m[r];
      Flatten(m[..n]) + m[n]
  }

  /** Row-major flattening of a batch, image after image: `target.view(-1)`. */
  function FlattenBatch(t: LabelBatch): (s: seq<int>)
    ensures forall v :: v in s ==> exists k :: 0 <= k < |t| && v in Flatten(t[k])
  {
    if |t| == 0 then []
    else
      var n := |t| - 1;
      assert forall k :: 0 <= k < n ==> t[..n][k] == t[k];
      FlattenBatch(t[..n]) + Flatten(t[n])
  }

  /** Entry `i*w + j` of a flattened h x w map is the pixel at row `i`, column `j`. */
  lemma {:induction false} FlattenIndex(m: LabelMap, h: nat, w: nat, i: nat, j: nat)
    requires IsMap(m, h, w) && i < h && j < w
    ensures |Flatten(m)| == h * w && i * w + j < h * w
    ensures Flatten(m)[i * w + j] == m[i][j]
  {
    FlattenLength(m, h, w);
    BlockIndexBound(i, j, w, h);
    var n := h - 1;
    var init := m[..n];
    assert Flatten(m) == Flatten(init) + m[n];
    FlattenLength(init, n, w);
    MulPred(h, w);
    if i < n {
      FlattenIndex(init, n, w, i, j);
    } else {
      assert i * w == n * w;
    }
  }

  lemma {:induction false} FlattenLength(m: LabelMap, h: nat, w: nat)
    requires IsMap(m, h, w)
    ensures |Flatten(m)| == h * w
  {
    if h > 0 {
      FlattenLength(m[..h - 1], h - 1, w);
      assert Flatten(m) == Flatten(m[..h - 1]) + m[h - 1];
      MulPred(h, w);
    }
  }

  /** A flattened B x H x W batch has one entry per pixel. */
  lemma {:induction false} FlattenBatchLength(t: LabelBatch, b: nat, h: nat, w: nat)
    requires IsBatch(t, b, h, w)
    ensures |FlattenBatch(t)| == b * (h * w)
  {
    if b > 0 {
      var init := t[..b - 1];
      assert IsBatch(init, b - 1, h, w);
      FlattenBatchLength(init, b - 1, h, w);
      FlattenLength(t[b - 1], h, w);
      assert FlattenBatch(t) == FlattenBatch(init) + Flatten(t[b - 1]);
      MulPred(b, h * w);
    }
  }

  /** Entry `k*(h*w) + (i*w + j)` of a flattened batch is pixel `(i, j)` of image `k`. */
  lemma {:induction false} FlattenBatchIndex(t: LabelBatch, b: nat, h: nat, w: nat, k: nat, i: nat, j: nat)
    requires IsBatch(t, b, h, w) && k < b && i < h && j < w
    ensures |FlattenBatch(t)| == b * (h * w) && k * (h * w) + (i * w + j) < b * (h * w)
    ensures FlattenBatch(t)[k * (h * w) + (i * w + j)] == t[k][i][j]
  {
    FlattenBatchLength(t, b, h, w);
    FlattenIndex(t[k], h, w, i, j);
    BlockIndexBound(k, i * w + j, h * w, b);
    var n := b - 1;
    var init := t[..n];
    assert IsBatch(init, n, h, w);
    assert FlattenBatch(t) == FlattenBatch(init) + Flatten(t[n]);
    FlattenBatchLength(init, n, h, w);
    MulPred(b, h * w);
    if k < n {
      FlattenBatchIndex(init, n, h, w, k, i, j);
    } else {
      assert k * (h * w) == n * (h * w);
    }
  }

  lemma MulPred(b: nat, m: nat)
    requires b >= 1
    ensures (b - 1) * m + m == b * m
  {
  }

  /** Euclidean division is pinned down by quotient and remainder. */
  lemma DivModUnique(k: int, n: int, q: int, r: int)
    requires n > 0 && 0 <= r < n && k == q * n + r
    ensures k / n == q && k % n == r
  {
    var q', r' := k / n, k % n;
    assert k == q' * n + r' && 0 <= r' < n;
    if q' > q {
      assert q' * n - q * n == (q' - q) * n;
      MulMonotone(1, q' - q, n);
    } else if q' < q {
      assert q * n - q' * n == (q - q') * n;
      MulMonotone(1, q - q', n);
    }
  }

  lemma MulMonotone(a: int, b: int, n: int)
    requires a <= b && n >= 0
    ensures a * n <= b * n
  {
    assert b * n - a * n == (b - a) * n;
  }

  /** An index inside block `q` of a blocked axis of `nq` blocks of size `n` is in range. */
  lemma BlockIndexBound(q: int, r: int, n: int, nq: int)
    requires 0 <= q < nq && 0 <= r < n
    ensures 0 <= q * n + r < nq * n
  {
    MulMonotone(q, nq - 1, n);
    assert (nq - 1) * n == nq * n - n;
    assert 0 <= q * n by { MulMonotone(0, q, n); }
  }

  /** Block `q` of `nq` blocks of size `n` ends inside the axis. */
  lemma BlockEnd(q: nat, nq: nat, n: nat)
    requires q < nq
    ensures q * n + n <= nq * n
  {
    MulMonotone(q + 1, nq, n);
  }

  /**
   * Mixed-radix numbering of a triple: `(x*ny + y)*nz + z` decodes back to
   * `x`, `y`, `z` by the divisions and remainders the tensor views use.
   */
  lemma MixedRadix(x: nat, y: nat, z: nat, ny: nat, nz: nat)
    requires y < ny && z < nz
    ensures var k := (x * ny + y) * nz + z;
            k / nz == x * ny + y && k % nz == z && (k / nz) % ny == y && k / (ny * nz) == x
  {
    var k := (x * ny + y) * nz + z;
    DivModUnique(k, nz, x * ny + y, z);
    DivModUnique(x * ny + y, ny, x, y);
    BlockIndexBound(y, z, nz, ny);
    assert k == x * (ny * nz) + (y * nz + z);
    DivModUnique(k, ny * nz, x, y * nz + z);
  }

  lemma MixedRadixBound(x: nat, y: nat, z: nat, nx: nat, ny: nat, nz: nat)
    requires x < nx && y < ny && z < nz
    ensures (x * ny + y) * nz + z < nx * ny * nz
  {
    BlockIndexBound(y, z, nz, ny);
    assert (x * ny + y) * nz + z == x * (ny * nz) + (y * nz + z);
    BlockIndexBound(x, y * nz + z, ny * nz, nx);
    assert nx * ny * nz == nx * (ny * nz);
  }

  /** Every number below `nx*ny*nz` is the mixed-radix code of its own digits. */
  lemma MixedRadixOnto(k: nat, nx: nat, ny: nat, nz: nat)
    requires k < nx * ny * nz
    ensures ny >= 1 && nz >= 1
    ensures k / (ny * nz) < nx && (k / nz) % ny < ny && k % nz < nz
    ensures k == ((k / (ny * nz)) * ny + (k / nz) % ny) * nz + k % nz
  {
    MulPositive(nx, ny, nz);
    var m := ny * nz;
    assert nx * ny * nz == nx * m;
    DivLess(k, m, nx);
    DivDiv(k, nz, ny);
    var q := k / nz;
    assert k == q * nz + k % nz;
    assert q == (q / ny) * ny + q % ny;
  }

  /** Dividing by `a` and then by `b` is dividing by `b*a`. */
  lemma DivDiv(k: nat, a: nat, b: nat)
    requires a >= 1 && b >= 1
    ensures k / (b * a) == (k / a) / b
  {
    var q, r := k / a, k % a;
    var x, y := q / b, q % b;
    assert k == q * a + r;
    assert q == x * b + y;
    BlockIndexBound(y, r, a, b);
    assert k == x * (b * a) + (y * a + r) by {
      assert q * a == x * b * a + y * a;
    }
    DivModUnique(k, b * a, x, y * a + r);
  }

  lemma DivLess(k: nat, m: nat, c: nat)
    requires m >= 1 && k < c * m
    ensures k / m < c
  {
    assert (k / m) * m <= k;
    MulStrictBound(k / m, c, m);
  }

  lemma MulStrictBound(x: nat, nx: nat, n: nat)
    requires x * n < nx * n
    ensures x < nx
  {
    if x >= nx {
      MulMonotone(nx, x, n);
    }
  }

  lemma MulPositive(a: nat, b: nat, c: nat)
    requires a * b * c > 0
    ensures a >= 1 && b >= 1 && c >= 1
  {
  }
}
