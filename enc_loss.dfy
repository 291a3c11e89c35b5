/**
 * Construction of the encoding loss's presence targets
 * (`BaseEncLoss._get_batch_label_vector` and the dense-map branch of
 * `BaseEncLoss.forward`): pad a B x H x W label map on the bottom and right
 * with the sentinel `num_classes` up to multiples of the grid size, cut it
 * into grid x grid cells ordered by image, cell row and cell column, and
 * record for every cell which classes `0 .. num_classes-1` occur in it.
 */
module EncLoss {
  import opened Common
  import ScaleTarget

  // ------------------------------------------------------------- padding

  /** `pad_h` / `pad_w`: how far `n` is from the next multiple of `g`. */
  function PadAmount(n: nat, g: nat): (p: nat)
    requires g >= 1
    ensures p < g && (n + p) % g == 0
  {
    if n % g == 0 then 0
    else
      DivModUnique(n + (g - n % g), g, n / g + 1, 0);
      g - n % g
  }

  /** The padded size is the least multiple of `g` at or above `n`. */
  lemma PaddedIsLeastMultiple(n: nat, g: nat, m: int)
    requires g >= 1 && n <= m && m % g == 0
    ensures n + PadAmount(n, g) <= m
  {
    var q, r := n / g, n % g;
    if r != 0 {
      var qm := m / g;
      assert m == qm * g;
      if qm <= q {
        MulMonotone(qm, q, g);
        assert false;
      }
      MulMonotone(q + 1, qm, g);
      assert (q + 1) * g == q * g + g;
    }
  }

  /** `F.pad(target, (0, pad_w, 0, pad_h), "constant", num_classes)` on one map. */
  function PadMap(m: LabelMap, h: nat, w: nat, ph: nat, pw: nat, fill: int): (r: LabelMap)
    requires IsMap(m, h, w)
    ensures IsMap(r, h + ph, w + pw)
    ensures forall i, j :: 0 <= i < h + ph && 0 <= j < w + pw ==>
              r[i][j] == if i < h && j < w then m[i][j] else fill
  {
    seq(h, i requires 0 <= i < h => m[i] + seq(pw, _ => fill)) + seq(ph, _ => seq(w + pw, _ => fill))
  }

  /** The padded batch: each map grown to `h + ph` rows of `w + pw`, new pixels set to `fill`. */
  function Pad(t: LabelBatch, b: nat, h: nat, w: nat, ph: nat, pw: nat, fill: int): (r: LabelBatch)
    requires IsBatch(t, b, h, w)
    ensures IsBatch(r, b, h + ph, w + pw)
    ensures forall k, i, j :: 0 <= k < b && 0 <= i < h + ph && 0 <= j < w + pw ==>
              r[k][i][j] == if i < h && j < w then t[k][i][j] else fill
  {
    seq(b, k requires 0 <= k < b => PadMap(t[k], h, w, ph, pw, fill))
  }

  // --------------------------------------------------------- cell layout

  /** The `g` x `g` block of a map whose top-left pixel is `(row0, col0)`. */
  function Block(m: LabelMap, hh: nat, ww: nat, g: nat, row0: nat, col0: nat): (cell: LabelMap)
    requires IsMap(m, hh, ww) && row0 + g <= hh && col0 + g <= ww
    ensures IsMap(cell, g, g)
    ensures forall r, c :: 0 <= r < g && 0 <= c < g ==> cell[r][c] == m[row0 + r][col0 + c]
  {
    seq(g, r requires 0 <= r < g => seq(g, c requires 0 <= c < g => m[row0 + r][col0 + c]))
  }

  /**
   * Cell `k` of `target.view(b, nh, g, nw, g).permute(0, 1, 3, 2, 4).view(b*nh*nw, g, g)`
   * on a batch of `nh*g` x `nw*g` maps: `k` is decoded into image, cell row
   * and cell column by the divisions the two views imply.
   */
  function Cell(t: LabelBatch, b: nat, nh: nat, nw: nat, g: nat, k: nat): (cell: LabelMap)
    requires IsBatch(t, b, nh * g, nw * g) && k < b * nh * nw
    ensures IsMap(cell, g, g)
  {
    CellCorner(b, nh, nw, g, k);
    Block(t[k / (nh * nw)], nh * g, nw * g, g, ((k / nw) % nh) * g, (k % nw) * g)
  }

  /** The image of cell `k` exists and its block lies inside the map. */
  lemma CellCorner(b: nat, nh: nat, nw: nat, g: nat, k: nat)
    requires k < b * nh * nw
    ensures k / (nh * nw) < b
    ensures ((k / nw) % nh) * g + g <= nh * g && (k % nw) * g + g <= nw * g
  {
    MixedRadixOnto(k, b, nh, nw);
    BlockEnd((k / nw) % nh, nh, g);
    BlockEnd(k % nw, nw, g);
  }

  /** The number `(bi*nh + ci)*nw + cj` of cell `(ci, cj)` of image `bi`. */
  function CellIndex(b: nat, nh: nat, nw: nat, bi: nat, ci: nat, cj: nat): (k: nat)
    requires bi < b && ci < nh && cj < nw
    ensures k < b * nh * nw
  {
    MixedRadixBound(bi, ci, cj, b, nh, nw);
    (bi * nh + ci) * nw + cj
  }

  /**
   * Cells are numbered image by image, then cell row, then cell column:
   * cell `(bi*nh + ci)*nw + cj` is the block of rows `ci*g ..` and columns
   * `cj*g ..` of image `bi`.
   */
  lemma CellLayout(t: LabelBatch, b: nat, nh: nat, nw: nat, g: nat, bi: nat, ci: nat, cj: nat)
    requires IsBatch(t, b, nh * g, nw * g)
    requires bi < b && ci < nh && cj < nw
    ensures ci * g + g <= nh * g && cj * g + g <= nw * g
    ensures Cell(t, b, nh, nw, g, CellIndex(b, nh, nw, bi, ci, cj)) == Block(t[bi], nh * g, nw * g, g, ci * g, cj * g)
  {
    MixedRadix(bi, ci, cj, nh, nw);
    BlockEnd(ci, nh, g);
    BlockEnd(cj, nw, g);
  }

  /** Every cell index is the number of its own image, cell row and cell column. */
  lemma CellNumbering(b: nat, nh: nat, nw: nat, k: nat)
    requires k < b * nh * nw
    ensures var bi, ci, cj := k / (nh * nw), (k / nw) % nh, k % nw;
            bi < b && ci < nh && cj < nw && k == (bi * nh + ci) * nw + cj
  {
    MixedRadixOnto(k, b, nh, nw);
  }

  // ---------------------------------------------------------- histogram

  ghost predicate CellHas(m: LabelMap, v: int)
  {
    exists r, c :: 0 <= r < |m| && 0 <= c < |m[r]| && m[r][c] == v
  }

  lemma {:induction false} FlattenMembers(m: LabelMap, v: int)
    ensures v in Flatten(m) <==> CellHas(m, v)
  {
    if |m| > 0 {
      var n := |m| - 1;
      var init := m[..n];
      FlattenMembers(init, v);
      assert Flatten(m) == Flatten(init) + m[n];
      if v in m[n] {
        var c :| 0 <= c < |m[n]| && m[n][c] == v;
        assert m[n][c] == v;
      }
      if CellHas(m, v) {
        var r, c :| 0 <= r < |m| && 0 <= c < |m[r]| && m[r][c] == v;
        if r < n {
          assert init[r][c] == v;
        } else {
          assert v in m[n];
        }
      }
      if CellHas(init, v) {
        var r, c :| 0 <= r < |init| && 0 <= c < |init[r]| && init[r][c] == v;
        assert m[r][c] == v;
      }
    }
  }

  /**
   * The bin `histc(bins=C, min=0, max=C-1)` puts an integer value `v` of
   * `[0, C-1]` in: `floor(v * C / (C-1))`, the top edge folded into the last
   * bin. It is always `v` itself.
   */
  function HistcBin(v: int, bins: nat): (k: int)
    requires bins >= 2 && 0 <= v <= bins - 1
    ensures k == v
  {
    var pos := (v * bins) / (bins - 1);
    if v < bins - 1 then
      DivModUnique(v * bins, bins - 1, v, v);
      pos
    else
      DivModUnique(v * bins, bins - 1, bins, 0);
      if pos == bins then bins - 1 else pos
  }

  /** `torch.histc(s, bins=C, min=0, max=C-1)`: values outside `[0, C-1]` are dropped. */
  function Histc(s: seq<int>, bins: nat): (hist: seq<nat>)
    requires bins >= 2
    ensures |hist| == bins
    ensures forall c :: 0 <= c < bins ==> hist[c] <= |s|
  {
    if |s| == 0 then seq(bins, _ => 0)
    else
      var hist := Histc(s[..|s| - 1], bins);
      var v := s[|s| - 1];
      if 0 <= v <= bins - 1 then
        var k := HistcBin(v, bins);
        hist[k := hist[k] + 1]
      else hist
  }

  /** Each bin counts exactly the occurrences of its class. */
  lemma {:induction false} HistcCounts(s: seq<int>, bins: nat, c: nat)
    requires bins >= 2 && c < bins
    ensures Histc(s, bins)[c] == multiset(s)[c]
  {
    if |s| > 0 {
      var init := s[..|s| - 1];
      HistcCounts(init, bins, c);
      assert s == init + [s[|s| - 1]];
    }
  }

  /** `hist > 0` for a cell: bit `c` is set exactly when some pixel of the cell is `c`. */
  lemma HistcPresence(cell: LabelMap, bins: nat, c: nat)
    requires bins >= 2 && c < bins
    ensures Histc(Flatten(cell), bins)[c] > 0 <==> CellHas(cell, c)
  {
    HistcCounts(Flatten(cell), bins, c);
    FlattenMembers(cell, c);
  }

  // -------------------------------------------------------- label vector

  /**
   * `h // grid_size` after padding: the number of cells along an axis of
   * length `n`, the least number of cells of size `g` that covers the axis.
   */
  function CellsAlong(n: nat, g: nat): (cells: nat)
    requires g >= 1
    ensures cells * g == n + PadAmount(n, g)
    ensures n <= cells * g < n + g
  {
    var padded := n + PadAmount(n, g);
    assert padded == (padded / g) * g + padded % g;
    padded / g
  }

  /** Cell `k` of the padded batch. */
  ghost function PaddedCell(t: LabelBatch, b: nat, h: nat, w: nat, g: nat, fill: int, k: nat): LabelMap
    requires g >= 1 && IsBatch(t, b, h, w)
    requires k < b * CellsAlong(h, g) * CellsAlong(w, g)
  {
    var ph, pw := PadAmount(h, g), PadAmount(w, g);
    var nh, nw := CellsAlong(h, g), CellsAlong(w, g);
    PaddedAxis(h, g);
    PaddedAxis(w, g);
    Cell(Pad(t, b, h, w, ph, pw, fill), b, nh, nw, g, k)
  }

  /** After padding, an axis of length `n` is exactly `CellsAlong(n, g)` cells long. */
  lemma PaddedAxis(n: nat, g: nat)
    requires g >= 1
    ensures n + PadAmount(n, g) == CellsAlong(n, g) * g
  {
    DivModUnique(n + PadAmount(n, g), g, CellsAlong(n, g), 0);
  }

  /** `b*hh*ww // (g*g)` on a padded batch is the number of cells. */
  lemma CellCount(b: nat, nh: nat, nw: nat, g: nat)
    requires g >= 1
    ensures b * (nh * g) * (nw * g) / (g * g) == b * nh * nw
  {
    assert b * (nh * g) * (nw * g) == (b * nh * nw) * (g * g);
    DivModUnique(b * (nh * g) * (nw * g), g * g, b * nh * nw, 0);
  }

  /** `(torch.histc(cell, num_classes, 0, num_classes-1) > 0)` as a 0/1 row: one bit per class present. */
  function LabelRow(cell: LabelMap, numClasses: nat): (vect: seq<int>)
    requires numClasses >= 2
    ensures |vect| == numClasses
    ensures forall c :: 0 <= c < numClasses ==> vect[c] == if CellHas(cell, c) then 1 else 0
  {
    var hist := Histc(Flatten(cell), numClasses);
    assert forall c :: 0 <= c < numClasses ==> (hist[c] > 0 <==> CellHas(cell, c)) by {
      forall c | 0 <= c < numClasses ensures hist[c] > 0 <==> CellHas(cell, c) {
        HistcPresence(cell, numClasses, c);
      }
    }
    seq(numClasses, c requires 0 <= c < numClasses => if hist[c] > 0 then 1 else 0)
  }

  /**
   * `_get_batch_label_vector(target, num_classes, grid_size)`: one 0/1 row of
   * length `num_classes` per padded cell, filled in a loop.
   */
  method BatchLabelVector(target: LabelBatch, b: nat, h: nat, w: nat, numClasses: nat, g: nat)
    returns (tvect: seq<seq<int>>)
    requires IsBatch(target, b, h, w) && g >= 1 && numClasses >= 2
    ensures |tvect| == b * CellsAlong(h, g) * CellsAlong(w, g)
    ensures forall k :: 0 <= k < |tvect| ==> |tvect[k]| == numClasses
    ensures forall k, c :: 0 <= k < |tvect| && 0 <= c < numClasses ==>
              tvect[k][c] == if CellHas(PaddedCell(target, b, h, w, g, numClasses, k), c) then 1 else 0
  {
    var ph := PadAmount(h, g);
    var pw := PadAmount(w, g);
    var padded := Pad(target, b, h, w, ph, pw, numClasses);
    var hh, ww := h + ph, w + pw;
    var nh, nw := hh / g, ww / g;
    PaddedAxis(h, g);
    PaddedAxis(w, g);
    CellCount(b, nh, nw, g);
    var batch := b * hh * ww / (g * g);
    tvect := seq(batch, _ => seq(numClasses, _ => 0));
    var i := 0;
    while i < batch
      invariant 0 <= i <= batch && |tvect| == batch
      invariant forall k :: 0 <= k < batch ==> |tvect[k]| == numClasses
      invariant forall k, c :: 0 <= k < i && 0 <= c < numClasses ==>
                  tvect[k][c] == if CellHas(PaddedCell(target, b, h, w, g, numClasses, k), c) then 1 else 0
    {
      var cell := Cell(padded, b, nh, nw, g, i);
      assert cell == PaddedCell(target, b, h, w, g, numClasses, i);
      tvect := tvect[i := LabelRow(cell, numClasses)];
      i := i + 1;
    }
  }

  /** Some pixel of the unpadded `h` x `w` map in the block with top-left pixel `(row0, col0)` is `v`. */
  ghost predicate ImageBlockHas(m: LabelMap, h: nat, w: nat, g: nat, row0: nat, col0: nat, v: int)
    requires IsMap(m, h, w)
  {
    exists i, j :: row0 <= i < row0 + g && col0 <= j < col0 + g && i < h && j < w && m[i][j] == v
  }

  /**
   * Bit `c` of the row of cell `(bi, ci, cj)` is set exactly when the
   * unpadded image has a pixel labelled `c` in that cell: the padding
   * sentinel `num_classes`, like every value outside `[0, num_classes-1]`
   * (an ignore label, say), never sets a bit.
   */
  lemma PresenceMeansOccurs(t: LabelBatch, b: nat, h: nat, w: nat, g: nat, numClasses: nat,
                            bi: nat, ci: nat, cj: nat, c: nat)
    requires IsBatch(t, b, h, w) && g >= 1 && c < numClasses
    requires bi < b && ci < CellsAlong(h, g) && cj < CellsAlong(w, g)
    ensures CellHas(PaddedCell(t, b, h, w, g, numClasses, CellIndex(b, CellsAlong(h, g), CellsAlong(w, g), bi, ci, cj)), c)
            <==> ImageBlockHas(t[bi], h, w, g, ci * g, cj * g, c)
  {
    var ph, pw := PadAmount(h, g), PadAmount(w, g);
    var row0: nat, col0: nat := ci * g, cj * g;
    var pm := PadMap(t[bi], h, w, ph, pw, numClasses);
    PaddedCellIsBlock(t, b, h, w, g, numClasses, bi, ci, cj);
    var cell := Block(pm, h + ph, w + pw, g, row0, col0);
    if CellHas(cell, c) {
      BlockHasOnlyImageLabels(t[bi], pm, h, w, h + ph, w + pw, numClasses, g, row0, col0, c);
    }
    if ImageBlockHas(t[bi], h, w, g, row0, col0, c) {
      BlockHasImageLabels(t[bi], pm, h, w, h + ph, w + pw, numClasses, g, row0, col0, c);
    }
  }

  /** Cell `(bi, ci, cj)` of the padded batch is the block at `(ci*g, cj*g)` of the padded map `bi`. */
  lemma PaddedCellIsBlock(t: LabelBatch, b: nat, h: nat, w: nat, g: nat, fill: int, bi: nat, ci: nat, cj: nat)
    requires IsBatch(t, b, h, w) && g >= 1
    requires bi < b && ci < CellsAlong(h, g) && cj < CellsAlong(w, g)
    ensures var ph, pw := PadAmount(h, g), PadAmount(w, g);
            var pm := PadMap(t[bi], h, w, ph, pw, fill);
            ci * g + g <= h + ph && cj * g + g <= w + pw &&
            PaddedFrom(pm, t[bi], h, w, h + ph, w + pw, fill) &&
            PaddedCell(t, b, h, w, g, fill, CellIndex(b, CellsAlong(h, g), CellsAlong(w, g), bi, ci, cj))
              == Block(pm, h + ph, w + pw, g, ci * g, cj * g)
  {
    var ph, pw := PadAmount(h, g), PadAmount(w, g);
    var nh, nw := CellsAlong(h, g), CellsAlong(w, g);
    PaddedAxis(h, g);
    PaddedAxis(w, g);
    var padded := Pad(t, b, h, w, ph, pw, fill);
    CellLayout(padded, b, nh, nw, g, bi, ci, cj);
    assert padded[bi] == PadMap(t[bi], h, w, ph, pw, fill);
  }

  /** `pm` is the `hh` x `ww` map `m` padded with `fill` beyond its `h` x `w` pixels. */
  ghost predicate PaddedFrom(pm: LabelMap, m: LabelMap, h: nat, w: nat, hh: nat, ww: nat, fill: int)
    requires IsMap(m, h, w)
  {
    IsMap(pm, hh, ww) &&
    forall i, j :: 0 <= i < hh && 0 <= j < ww ==> pm[i][j] == if i < h && j < w then m[i][j] else fill
  }

  /** A label other than the fill found in a block of the padded map comes from the unpadded map. */
  lemma BlockHasOnlyImageLabels(m: LabelMap, pm: LabelMap, h: nat, w: nat, hh: nat, ww: nat, fill: int,
                                g: nat, row0: nat, col0: nat, c: int)
    requires IsMap(m, h, w) && PaddedFrom(pm, m, h, w, hh, ww, fill) && c != fill
    requires row0 + g <= hh && col0 + g <= ww
    requires CellHas(Block(pm, hh, ww, g, row0, col0), c)
    ensures ImageBlockHas(m, h, w, g, row0, col0, c)
  {
    var cell := Block(pm, hh, ww, g, row0, col0);
    var r, col :| 0 <= r < |cell| && 0 <= col < |cell[r]| && cell[r][col] == c;
    var i, j := row0 + r, col0 + col;
    assert pm[i][j] == c;
    assert i < h && j < w && m[i][j] == c;
  }

  /** Every label of the unpadded map inside a block is found in that block of the padded map. */
  lemma BlockHasImageLabels(m: LabelMap, pm: LabelMap, h: nat, w: nat, hh: nat, ww: nat, fill: int,
                            g: nat, row0: nat, col0: nat, c: int)
    requires IsMap(m, h, w) && PaddedFrom(pm, m, h, w, hh, ww, fill)
    requires row0 + g <= hh && col0 + g <= ww
    requires ImageBlockHas(m, h, w, g, row0, col0, c)
    ensures CellHas(Block(pm, hh, ww, g, row0, col0), c)
  {
    var cell := Block(pm, hh, ww, g, row0, col0);
    var i, j :| row0 <= i < row0 + g && col0 <= j < col0 + g && i < h && j < w && m[i][j] == c;
    assert pm[i][j] == c;
    assert cell[i - row0][j - col0] == c;
  }

  /**
   * The dense-map branch of `BaseEncLoss.forward`: rescale the targets to the
   * prediction's `oh` x `ow`, then build the presence rows of the rescaled map.
   */
  method EncodingTarget(targets: LabelBatch, b: nat, h: nat, w: nat, oh: nat, ow: nat,
                        numClasses: nat, g: nat)
    returns (seTarget: seq<seq<int>>)
    requires IsBatch(targets, b, h, w) && h >= 1 && w >= 1 && oh >= 1 && ow >= 1
    requires g >= 1 && numClasses >= 2
    ensures |seTarget| == b * CellsAlong(oh, g) * CellsAlong(ow, g)
    ensures forall k :: 0 <= k < |seTarget| ==> |seTarget[k]| == numClasses
    ensures forall k, c :: 0 <= k < |seTarget| && 0 <= c < numClasses ==>
              seTarget[k][c] == if CellHas(PaddedCell(ScaleTarget.Scale(targets, b, h, w, oh, ow),
                                                      b, oh, ow, g, numClasses, k), c) then 1 else 0
  {
    var scaled := ScaleTarget.Scale(targets, b, h, w, oh, ow);
    seTarget := BatchLabelVector(scaled, b, oh, ow, numClasses, g);
  }
}
