/**
 * Nearest-neighbour rescaling of a batch of integer label maps to the
 * prediction's height and width (`_scale_target`, which the cross-entropy,
 * OHEM and encoding losses each carry an identical copy of).
 *
 * The source goes through `interpolate(mode='nearest')`, which for output
 * coordinate `d` reads input coordinate `floor(d * in / out)`, clamped to
 * `in - 1`. Labels are exact integers here. The source's float32 round trip is
 * the identity only for labels of magnitude at most 2^24; the rounding of
 * larger labels is not modelled.
 */
module ScaleTarget {
  import opened Common

  /** The input coordinate that output coordinate `d` reads. */
  function SourceIndex(d: nat, inSize: nat, outSize: nat): (s: nat)
    requires inSize >= 1 && outSize >= 1
    ensures s < inSize
  {
    var q := (d * inSize) / outSize;
    if q < inSize - 1 then q else inSize - 1
  }

  /** Resample one label map from `h` x `w` to `oh` x `ow`. */
  function ScaleMap(m: LabelMap, h: nat, w: nat, oh: nat, ow: nat): (r: LabelMap)
    requires h >= 1 && w >= 1 && oh >= 1 && ow >= 1
    requires IsMap(m, h, w)
    ensures IsMap(r, oh, ow)
  {
    seq(oh, i requires 0 <= i < oh =>
      seq(ow, j requires 0 <= j < ow => m[SourceIndex(i, h, oh)][SourceIndex(j, w, ow)]))
  }

  /** `_scale_target(targets, (oh, ow))` on a B x h x w batch. */
  function Scale(t: LabelBatch, b: nat, h: nat, w: nat, oh: nat, ow: nat): (r: LabelBatch)
    requires h >= 1 && w >= 1 && oh >= 1 && ow >= 1
    requires IsBatch(t, b, h, w)
    ensures IsBatch(r, b, oh, ow)
  {
    seq(b, k requires 0 <= k < b => ScaleMap(t[k], h, w, oh, ow))
  }

  /** Every label value that occurs anywhere in a batch. */
  ghost function Labels(t: LabelBatch): set<int>
  {
    set k, i, j | 0 <= k < |t| && 0 <= i < |t[k]| && 0 <= j < |t[k][i]| :: t[k][i][j]
  }

  /**
   * Each output pixel is the input pixel of the same image at an in-range
   * source coordinate, and nearest-neighbour resampling invents no label.
   */
  lemma ScaleReadsSource(t: LabelBatch, b: nat, h: nat, w: nat, oh: nat, ow: nat,
                         k: nat, i: nat, j: nat)
    requires h >= 1 && w >= 1 && oh >= 1 && ow >= 1
    requires IsBatch(t, b, h, w)
    requires k < b && i < oh && j < ow
    ensures var r := Scale(t, b, h, w, oh, ow);
            var si, sj := SourceIndex(i, h, oh), SourceIndex(j, w, ow);
            si < h && sj < w && r[k][i][j] == t[k][si][sj]
  {
  }

  lemma ScaleNoNewLabels(t: LabelBatch, b: nat, h: nat, w: nat, oh: nat, ow: nat)
    requires h >= 1 && w >= 1 && oh >= 1 && ow >= 1
    requires IsBatch(t, b, h, w)
    ensures Labels(Scale(t, b, h, w, oh, ow)) <= Labels(t)
  {
    var r := Scale(t, b, h, w, oh, ow);
    forall v | v in Labels(r) ensures v in Labels(t) {
      var k, i, j :| 0 <= k < |r| && 0 <= i < |r[k]| && 0 <= j < |r[k][i]| && r[k][i][j] == v;
      var si, sj := SourceIndex(i, h, oh), SourceIndex(j, w, ow);
      assert t[k][si][sj] == v;
    }
  }

  /** Resampling to the input's own size reads every pixel from itself. */
  lemma SourceIndexIdentity(d: nat, n: nat)
    requires n >= 1 && d < n
    ensures SourceIndex(d, n, n) == d
  {
    DivModUnique(d * n, n, d, 0);
  }

  lemma ScaleIdentity(t: LabelBatch, b: nat, h: nat, w: nat)
    requires h >= 1 && w >= 1
    requires IsBatch(t, b, h, w)
    ensures Scale(t, b, h, w, h, w) == t
  {
    var r := Scale(t, b, h, w, h, w);
    forall k | 0 <= k < b ensures r[k] == t[k] {
      forall i | 0 <= i < h ensures r[k][i] == t[k][i] {
        forall j | 0 <= j < w ensures r[k][i][j] == t[k][i][j] {
          SourceIndexIdentity(i, h);
          SourceIndexIdentity(j, w);
        }
      }
    }
  }

  /** Source coordinates never move backwards as the output coordinate grows. */
  lemma SourceIndexMonotone(d1: nat, d2: nat, inSize: nat, outSize: nat)
    requires inSize >= 1 && outSize >= 1 && d1 <= d2
    ensures SourceIndex(d1, inSize, outSize) <= SourceIndex(d2, inSize, outSize)
  {
    MulMonotone(d1, d2, inSize);
    DivMonotone(d1 * inSize, d2 * inSize, outSize);
  }

  lemma DivMonotone(x: int, y: int, n: int)
    requires 0 <= x <= y && n > 0
    ensures x / n <= y / n
  {
    if x / n > y / n {
      assert (y / n + 1) * n == (y / n) * n + n;
      MulMonotone(y / n + 1, x / n, n);
    }
  }
}
