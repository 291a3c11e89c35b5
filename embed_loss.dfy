/**
 * The discrete bookkeeping of the pixel-embedding loss (`BaseEmbedLoss`):
 * per-class 0/1 masks, the list of classes without pixels, the class centres
 * (mean embedding of a class's pixels), and the two loops that hand their
 * arguments to the cosine-embedding loss.
 *
 * Pixels are a flat sequence in the tensor's row-major order (masking is
 * elementwise, so the batch/height/width split plays no part). Each pixel
 * carries an embedding vector of `dim` exact reals. The cosine-embedding
 * loss itself is a parameter `cos`: the model says on which arguments it is
 * evaluated and how its values are summed, not what it computes.
 */
module EmbedLoss {
  import opened Common
  import Masked

  type Vec = seq<real>

  /** `nn.CosineEmbeddingLoss()(x1, x2, y)`, left uninterpreted. */
  type CosineLoss = (seq<Vec>, seq<Vec>, seq<real>) -> real

  /**
   * The cosine-embedding loss is never negative: each of its terms is
   * `1 - cos` or `max(0, cos - margin)`.
   */
  ghost predicate NonNegative(cos: CosineLoss)
  {
    forall x1, x2, y :: cos(x1, x2, y) >= 0.0
  }

  function Zeros(dim: nat): (z: Vec)
  {
    seq(dim, _ => 0.0)
  }

  ghost predicate AllDim(rows: seq<Vec>, dim: nat)
  {
    forall q :: 0 <= q < |rows| ==> |rows[q]| == dim
  }

  // ---------------------------------------------------------------- masks

  /** Reference indicator of class `i`: 1 exactly where the label is `i`. */
  function ClassMask(t: seq<int>, i: int): (m: seq<int>)
  {
    seq(|t|, p requires 0 <= p < |t| => if t[p] == i then 1 else 0)
  }

  /**
   * `get_mask(targets, i)`: copy the labels and rewrite the copy in place.
   * Class 0 takes three masked assignments (non-zero to 2, zero to 1, 2 to 0),
   * every other class two; both come out as the indicator of `t == i`.
   */
  method GetMask(targets: seq<int>, i: int) returns (mask: seq<int>)
    ensures mask == ClassMask(targets, i)
  {
    var cp := new int[|targets|](p requires 0 <= p < |targets| => targets[p]);
    if i == 0 {
      Masked.AssignWhereNe(cp, 0, 2);
      Masked.AssignWhereEq(cp, 0, 1);
      Masked.AssignWhereEq(cp, 2, 0);
    } else {
      Masked.AssignWhereNe(cp, i, 0);
      Masked.AssignWhereEq(cp, i, 1);
    }
    mask := cp[..];
  }

  /** No pixel belongs to the masks of two different classes. */
  lemma ClassMasksDisjoint(t: seq<int>, i: int, j: int, p: nat)
    requires i != j && p < |t|
    ensures ClassMask(t, i)[p] == 0 || ClassMask(t, j)[p] == 0
  {
  }

  /** Number of pixels labelled `i`. */
  function Count(t: seq<int>, i: int): (n: nat)
    ensures n <= |t|
  {
    if |t| == 0 then 0
    else Count(t[..|t| - 1], i) + (if t[|t| - 1] == i then 1 else 0)
  }

  lemma {:induction false} CountZeroIff(t: seq<int>, i: int)
    ensures Count(t, i) == 0 <==> i !in t
  {
    if |t| > 0 {
      var init := t[..|t| - 1];
      CountZeroIff(init, i);
      assert t == init + [t[|t| - 1]];
    }
  }

  /** `mask.sum()`. */
  function MaskSum(m: seq<int>): (total: int)
    ensures (forall p :: 0 <= p < |m| ==> 0 <= m[p] <= 1) ==> 0 <= total <= |m|
  {
    if |m| == 0 then 0
    else
      var n := |m| - 1;
      assert forall p :: 0 <= p < n ==> m[..n][p] == m[p];
      MaskSum(m[..n]) + m[n]
  }

  lemma {:induction false} MaskSumIsCount(t: seq<int>, i: int)
    ensures MaskSum(ClassMask(t, i)) == Count(t, i)
  {
    if |t| > 0 {
      var init := t[..|t| - 1];
      assert ClassMask(t, i)[..|t| - 1] == ClassMask(init, i);
      MaskSumIsCount(init, i);
    }
  }

  /** `sum_pixel = max(mask.sum(), 1)`: never zero, and the pixel count whenever there is one. */
  function SumPixel(t: seq<int>, i: int, mask: seq<int>): (s: int)
    requires mask == ClassMask(t, i)
    ensures s >= 1
    ensures Count(t, i) >= 1 ==> s == Count(t, i)
  {
    MaskSumIsCount(t, i);
    var total := MaskSum(mask);
    if total >= 1 then total else 1
  }

  /** `inputs[mask]` viewed as one row per selected pixel, in pixel order. */
  function MaskedSelect(emb: seq<Vec>, m: seq<int>): (r: seq<Vec>)
    requires |emb| == |m|
    ensures forall v :: v in r ==> v in emb
  {
    if |m| == 0 then []
    else
      var init := MaskedSelect(emb[..|m| - 1], m[..|m| - 1]);
      if m[|m| - 1] != 0 then init + [emb[|m| - 1]] else init
  }

  lemma {:induction false} MaskedSelectCount(emb: seq<Vec>, t: seq<int>, i: int)
    requires |emb| == |t|
    ensures |MaskedSelect(emb, ClassMask(t, i))| == Count(t, i)
  {
    if |t| > 0 {
      var n := |t| - 1;
      assert ClassMask(t, i)[..n] == ClassMask(t[..n], i);
      MaskedSelectCount(emb[..n], t[..n], i);
    }
  }

  /** The pixels labelled `i`, in increasing order: the rows `inputs[mask]` keeps. */
  function ClassPixels(t: seq<int>, i: int): (ps: seq<nat>)
    ensures forall q :: 0 <= q < |ps| ==> ps[q] < |t| && t[ps[q]] == i
    ensures forall q, q' :: 0 <= q < q' < |ps| ==> ps[q] < ps[q']
    ensures forall p :: 0 <= p < |t| && t[p] == i ==> p in ps
  {
    if |t| == 0 then []
    else
      var n := |t| - 1;
      assert forall p :: 0 <= p < n ==> t[..n][p] == t[p];
      var init := ClassPixels(t[..n], i);
      if t[n] == i then init + [n] else init
  }

  /** Row `q` of the selection is the embedding of the `q`-th pixel labelled `i`. */
  lemma {:induction false} MaskedSelectIsClassRows(emb: seq<Vec>, t: seq<int>, i: int)
    requires |emb| == |t|
    ensures |MaskedSelect(emb, ClassMask(t, i))| == |ClassPixels(t, i)|
    ensures forall q :: 0 <= q < |ClassPixels(t, i)| ==>
              MaskedSelect(emb, ClassMask(t, i))[q] == emb[ClassPixels(t, i)[q]]
  {
    if |t| > 0 {
      var n := |t| - 1;
      assert ClassMask(t, i)[..n] == ClassMask(t[..n], i);
      MaskedSelectIsClassRows(emb[..n], t[..n], i);
      var init := MaskedSelect(emb[..n], ClassMask(t[..n], i));
      var ps := ClassPixels(t[..n], i);
      assert forall q :: 0 <= q < |ps| ==> init[q] == emb[ps[q]];
    }
  }

  /** An embedding is selected exactly when some pixel labelled `i` carries it. */
  lemma MaskedSelectMembers(emb: seq<Vec>, t: seq<int>, i: int, x: Vec)
    requires |emb| == |t|
    ensures x in MaskedSelect(emb, ClassMask(t, i)) <==>
            exists p :: 0 <= p < |t| && t[p] == i && emb[p] == x
  {
    var r := MaskedSelect(emb, ClassMask(t, i));
    var ps := ClassPixels(t, i);
    MaskedSelectIsClassRows(emb, t, i);
    if x in r {
      var q :| 0 <= q < |r| && r[q] == x;
      assert t[ps[q]] == i && emb[ps[q]] == x;
    }
    if exists p :: 0 <= p < |t| && t[p] == i && emb[p] == x {
      var p :| 0 <= p < |t| && t[p] == i && emb[p] == x;
      var q :| 0 <= q < |ps| && ps[q] == p;
      assert r[q] == x;
    }
  }

  lemma SelectedDim(emb: seq<Vec>, m: seq<int>, dim: nat)
    requires |emb| == |m| && AllDim(emb, dim)
    ensures AllDim(MaskedSelect(emb, m), dim)
  {
    var r := MaskedSelect(emb, m);
    forall q | 0 <= q < |r| ensures |r[q]| == dim {
      assert r[q] in emb;
    }
  }

  // -------------------------------------------------------------- centres

  /** `torch.sum(sim_input, 1)`: the coordinate-wise sum of the selected rows. */
  function ColumnSum(rows: seq<Vec>, dim: nat): (s: Vec)
    requires AllDim(rows, dim)
    ensures |s| == dim
  {
    if |rows| == 0 then Zeros(dim)
    else
      var s := ColumnSum(rows[..|rows| - 1], dim);
      seq(dim, d requires 0 <= d < dim => s[d] + rows[|rows| - 1][d])
  }

  /** `center = torch.sum(sim_input, 1) / sum_pixel`. */
  function Center(rows: seq<Vec>, dim: nat, sumPixel: int): (c: Vec)
    requires AllDim(rows, dim) && sumPixel >= 1
    ensures |c| == dim
  {
    var s := ColumnSum(rows, dim);
    seq(dim, d requires 0 <= d < dim => s[d] / sumPixel as real)
  }

  /** Scaling the centre back by `sum_pixel` recovers the column sum. */
  lemma CenterScalesBack(rows: seq<Vec>, dim: nat, sumPixel: int, d: nat)
    requires AllDim(rows, dim) && sumPixel >= 1 && d < dim
    ensures Center(rows, dim, sumPixel)[d] * (sumPixel as real) == ColumnSum(rows, dim)[d]
  {
    var c := Center(rows, dim, sumPixel);
    DivThenMul(c[d], ColumnSum(rows, dim)[d], sumPixel as real);
  }

  lemma DivThenMul(y: real, x: real, n: real)
    requires n > 0.0 && y == x / n
    ensures y * n == x
  {
  }

  /**
   * A class is recorded in `mask_list` when `inputs[mask]` has no elements:
   * no pixel carries the label, or the embedding has no coordinates.
   */
  predicate IsEmptyClass(t: seq<int>, dim: nat, i: int)
  {
    Count(t, i) * dim == 0
  }

  /** The `mask_list` after the classes `0 .. k-1` have been visited. */
  function EmptyClasses(t: seq<int>, dim: nat, k: nat): (r: seq<nat>)
    ensures forall q :: 0 <= q < |r| ==> r[q] < k
  {
    if k == 0 then []
    else EmptyClasses(t, dim, k - 1) + (if IsEmptyClass(t, dim, k - 1) then [k - 1] else [])
  }

  /** `mask_list` holds, in increasing order, exactly the classes whose mask selected nothing. */
  lemma {:induction false} EmptyClassesExact(t: seq<int>, dim: nat, k: nat)
    ensures forall c :: c in EmptyClasses(t, dim, k) <==> 0 <= c < k && IsEmptyClass(t, dim, c)
    ensures forall q1, q2 :: 0 <= q1 < q2 < |EmptyClasses(t, dim, k)| ==>
              EmptyClasses(t, dim, k)[q1] < EmptyClasses(t, dim, k)[q2]
  {
    if k > 0 {
      var before := EmptyClasses(t, dim, k - 1);
      EmptyClassesExact(t, dim, k - 1);
      if IsEmptyClass(t, dim, k - 1) {
        assert EmptyClasses(t, dim, k) == before + [k - 1];
      } else {
        assert EmptyClasses(t, dim, k) == before;
      }
    }
  }

  /** With a non-empty embedding, an empty class is one that no pixel carries. */
  lemma EmptyClassMeansAbsent(t: seq<int>, dim: nat, c: int)
    requires dim >= 1
    ensures IsEmptyClass(t, dim, c) <==> c !in t
  {
    CountZeroIff(t, c);
  }

  /** Row `i` of `center_array` after the first loop. */
  function CenterRow(t: seq<int>, emb: seq<Vec>, dim: nat, i: int): (c: Vec)
    requires |emb| == |t| && AllDim(emb, dim)
    ensures |c| == dim
  {
    if IsEmptyClass(t, dim, i) then Zeros(dim)
    else
      MaskedSelectCount(emb, t, i);
      SelectedDim(emb, ClassMask(t, i), dim);
      Center(MaskedSelect(emb, ClassMask(t, i)), dim, Count(t, i))
  }

  /** Reference sum of coordinate `d` over the pixels labelled `i`. */
  function ClassSum(t: seq<int>, emb: seq<Vec>, dim: nat, i: int, d: nat): real
    requires |emb| == |t| && AllDim(emb, dim) && d < dim
  {
    if |t| == 0 then 0.0
    else
      var n := |t| - 1;
      ClassSum(t[..n], emb[..n], dim, i, d) + (if t[n] == i then emb[n][d] else 0.0)
  }

  lemma {:induction false} ColumnSumIsClassSum(t: seq<int>, emb: seq<Vec>, dim: nat, i: int, d: nat)
    requires |emb| == |t| && AllDim(emb, dim) && d < dim
    ensures AllDim(MaskedSelect(emb, ClassMask(t, i)), dim)
    ensures ColumnSum(MaskedSelect(emb, ClassMask(t, i)), dim)[d] == ClassSum(t, emb, dim, i, d)
  {
    SelectedDim(emb, ClassMask(t, i), dim);
    if |t| > 0 {
      var n := |t| - 1;
      assert ClassMask(t, i)[..n] == ClassMask(t[..n], i);
      ColumnSumIsClassSum(t[..n], emb[..n], dim, i, d);
      var init := MaskedSelect(emb[..n], ClassMask(t[..n], i));
      if t[n] == i {
        assert (init + [emb[n]])[..|init|] == init;
      }
    }
  }

  /** The centre of a non-empty class is the mean embedding of its pixels. */
  lemma CenterIsMean(t: seq<int>, emb: seq<Vec>, dim: nat, i: int, d: nat)
    requires |emb| == |t| && AllDim(emb, dim) && d < dim
    requires !IsEmptyClass(t, dim, i)
    ensures Count(t, i) >= 1
    ensures CenterRow(t, emb, dim, i)[d] == ClassSum(t, emb, dim, i, d) / (Count(t, i) as real)
  {
    var rows := MaskedSelect(emb, ClassMask(t, i));
    MaskedSelectCount(emb, t, i);
    SelectedDim(emb, ClassMask(t, i), dim);
    var n := Count(t, i);
    var c := Center(rows, dim, n);
    assert CenterRow(t, emb, dim, i) == c;
    ColumnSumIsClassSum(t, emb, dim, i, d);
    assert c[d] == ColumnSum(rows, dim)[d] / (n as real);
  }

  /** The centres of classes recorded in `mask_list` stay zero. */
  lemma EmptyClassCenterIsZero(t: seq<int>, emb: seq<Vec>, dim: nat, k: nat, i: nat)
    requires |emb| == |t| && AllDim(emb, dim)
    requires i in EmptyClasses(t, dim, k)
    ensures CenterRow(t, emb, dim, i) == Zeros(dim)
  {
    EmptyClassesExact(t, dim, k);
  }

  // ---------------------------------------------------------- pull terms

  /** The cosine loss of a non-empty class's pixels against its repeated centre, label +1 each. */
  function PullTerm(t: seq<int>, emb: seq<Vec>, dim: nat, cos: CosineLoss, i: int): (pull: real)
    requires |emb| == |t| && AllDim(emb, dim)
    ensures NonNegative(cos) ==> pull >= 0.0
  {
    var rows := MaskedSelect(emb, ClassMask(t, i));
    var center := CenterRow(t, emb, dim, i);
    cos(seq(|rows|, _ => center), rows, seq(|rows|, _ => 1.0))
  }

  /** `sim_loss` after the classes `0 .. k-1` have been visited. */
  function SimLoss(t: seq<int>, emb: seq<Vec>, dim: nat, cos: CosineLoss, k: nat): (sim: real)
    requires |emb| == |t| && AllDim(emb, dim)
    ensures NonNegative(cos) ==> sim >= 0.0
    ensures (forall c :: 0 <= c < k ==> IsEmptyClass(t, dim, c)) ==> sim == 0.0
  {
    if k == 0 then 0.0
    else SimLoss(t, emb, dim, cos, k - 1)
         + (if IsEmptyClass(t, dim, k - 1) then 0.0 else PullTerm(t, emb, dim, cos, k - 1))
  }

  /**
   * One pass of the first loop for class `i`: its mask, `sum_pixel`, the
   * selected embeddings; `empty` when nothing was selected, otherwise the
   * centre and the pull term.
   */
  method ClassPass(targets: seq<int>, emb: seq<Vec>, dim: nat, cos: CosineLoss, i: int)
    returns (empty: bool, center: Vec, pull: real)
    requires |emb| == |targets| && AllDim(emb, dim)
    ensures empty == IsEmptyClass(targets, dim, i)
    ensures !empty ==> center == CenterRow(targets, emb, dim, i) && pull == PullTerm(targets, emb, dim, cos, i)
  {
    var mask := GetMask(targets, i);
    var sumPixel := SumPixel(targets, i, mask);
    var simInput := MaskedSelect(emb, mask);
    MaskedSelectCount(emb, targets, i);
    SelectedDim(emb, mask, dim);
    empty := |simInput| * dim == 0;
    center, pull := Zeros(dim), 0.0;
    if !empty {
      center := Center(simInput, dim, sumPixel);
      var simCenter := seq(|simInput|, _ => center);
      var simLabel := seq(|simInput|, _ => 1.0);
      pull := cos(simCenter, simInput, simLabel);
    }
  }

  /**
   * The first loop of `forward`: for every class build its mask, record it
   * in `maskList` when nothing is selected, otherwise write its centre into
   * `centerArray` and add its pull term to `simLoss`.
   */
  method ClassCenters(targets: seq<int>, emb: seq<Vec>, numClasses: nat, dim: nat, cos: CosineLoss)
    returns (maskList: seq<nat>, centerArray: seq<Vec>, simLoss: real)
    requires |emb| == |targets| && AllDim(emb, dim)
    ensures maskList == EmptyClasses(targets, dim, numClasses)
    ensures |centerArray| == numClasses
    ensures forall i :: 0 <= i < numClasses ==> centerArray[i] == CenterRow(targets, emb, dim, i)
    ensures simLoss == SimLoss(targets, emb, dim, cos, numClasses)
  {
    centerArray := seq(numClasses, _ => Zeros(dim));
    assert centerArray == CentersUpTo(targets, emb, dim, numClasses, 0);
    simLoss := 0.0;
    maskList := [];
    var i := 0;
    while i < numClasses
      invariant 0 <= i <= numClasses
      invariant maskList == EmptyClasses(targets, dim, i)
      invariant centerArray == CentersUpTo(targets, emb, dim, numClasses, i)
      invariant simLoss == SimLoss(targets, emb, dim, cos, i)
    {
      var empty, center, pull := ClassPass(targets, emb, dim, cos, i);
      VisitStep(targets, emb, dim, cos, numClasses, i, empty, center, pull);
      if empty {
        maskList := maskList + [i];
      } else {
        centerArray := centerArray[i := center];
        simLoss := simLoss + pull;
      }
      i := i + 1;
    }
  }

  /** `center_array` once the classes `0 .. i-1` have been visited: their centres, then zero rows. */
  ghost function CentersUpTo(t: seq<int>, emb: seq<Vec>, dim: nat, n: nat, i: nat): (ca: seq<Vec>)
    requires |emb| == |t| && AllDim(emb, dim)
    ensures |ca| == n
  {
    seq(n, k requires 0 <= k < n => if k < i then CenterRow(t, emb, dim, k) else Zeros(dim))
  }

  /** Visiting class `i` writes its centre into row `i`, which for an empty class is the zero row already there. */
  lemma CentersStep(t: seq<int>, emb: seq<Vec>, dim: nat, n: nat, i: nat)
    requires |emb| == |t| && AllDim(emb, dim) && i < n
    ensures CentersUpTo(t, emb, dim, n, i + 1) == CentersUpTo(t, emb, dim, n, i)[i := CenterRow(t, emb, dim, i)]
    ensures IsEmptyClass(t, dim, i) ==> CentersUpTo(t, emb, dim, n, i + 1) == CentersUpTo(t, emb, dim, n, i)
  {
  }

  /** What one visit of the first loop does to `mask_list`, `center_array` and `sim_loss`. */
  lemma VisitStep(t: seq<int>, emb: seq<Vec>, dim: nat, cos: CosineLoss, n: nat, i: nat,
                  empty: bool, center: Vec, pull: real)
    requires |emb| == |t| && AllDim(emb, dim) && i < n
    requires empty == IsEmptyClass(t, dim, i)
    requires !empty ==> center == CenterRow(t, emb, dim, i) && pull == PullTerm(t, emb, dim, cos, i)
    ensures empty ==> EmptyClasses(t, dim, i + 1) == EmptyClasses(t, dim, i) + [i]
                      && CentersUpTo(t, emb, dim, n, i + 1) == CentersUpTo(t, emb, dim, n, i)
                      && SimLoss(t, emb, dim, cos, i + 1) == SimLoss(t, emb, dim, cos, i)
    ensures !empty ==> EmptyClasses(t, dim, i + 1) == EmptyClasses(t, dim, i)
                       && CentersUpTo(t, emb, dim, n, i + 1) == CentersUpTo(t, emb, dim, n, i)[i := center]
                       && SimLoss(t, emb, dim, cos, i + 1) == SimLoss(t, emb, dim, cos, i) + pull
  {
    CentersStep(t, emb, dim, n, i);
  }

  // ---------------------------------------------------------- push terms

  /**
   * One pass of the second loop for class `i`: `pushLabel` is +1 at `i` and -1
   * everywhere else, and every row of `centerDual` is a copy of `centerArray[i]`.
   */
  method PushPass(centerArray: seq<Vec>, i: nat, numClasses: nat, dim: nat)
    returns (pushLabel: seq<real>, centerDual: seq<Vec>)
    requires |centerArray| == numClasses && i < numClasses
    ensures |pushLabel| == numClasses && |centerDual| == numClasses
    ensures forall j :: 0 <= j < numClasses ==> pushLabel[j] == (if j == i then 1.0 else -1.0)
    ensures forall k :: 0 <= k < numClasses ==> centerDual[k] == centerArray[i]
    ensures pushLabel == PushLabel(i, numClasses) && centerDual == PushDual(centerArray, i)
  {
    pushLabel := seq(numClasses, _ => 0.0);
    centerDual := seq(numClasses, _ => Zeros(dim));
    var k := 0;
    while k < numClasses
      invariant 0 <= k <= numClasses && |centerDual| == numClasses
      invariant forall q :: 0 <= q < k ==> centerDual[q] == centerArray[i]
    {
      centerDual := centerDual[k := centerArray[i]];
      k := k + 1;
    }
    var j := 0;
    while j < numClasses
      invariant 0 <= j <= numClasses && |pushLabel| == numClasses
      invariant forall q :: 0 <= q < j ==> pushLabel[q] == (if q == i then 1.0 else -1.0)
    {
      if j == i {
        pushLabel := pushLabel[j := 1.0];
      } else {
        pushLabel := pushLabel[j := -1.0];
      }
      j := j + 1;
    }
  }

  /** The classes `0 .. k-1` that are not in `maskList`, in increasing order. */
  function ClassesNotIn(maskList: seq<nat>, k: nat): (r: seq<nat>)
    ensures forall q :: 0 <= q < |r| ==> r[q] < k
  {
    if k == 0 then []
    else ClassesNotIn(maskList, k - 1) + (if k - 1 in maskList then [] else [k - 1])
  }

  /** The push loop visits each class missing from `maskList` exactly once, in increasing order. */
  lemma {:induction false} ClassesNotInExact(maskList: seq<nat>, k: nat)
    ensures forall c :: c in ClassesNotIn(maskList, k) <==> 0 <= c < k && c !in maskList
    ensures forall q1, q2 :: 0 <= q1 < q2 < |ClassesNotIn(maskList, k)| ==>
              ClassesNotIn(maskList, k)[q1] < ClassesNotIn(maskList, k)[q2]
  {
    if k > 0 {
      var before := ClassesNotIn(maskList, k - 1);
      ClassesNotInExact(maskList, k - 1);
      if k - 1 in maskList {
        assert ClassesNotIn(maskList, k) == before;
      } else {
        assert ClassesNotIn(maskList, k) == before + [k - 1];
      }
    }
  }

  /** Reference push label: +1 at `i`, -1 at every other of the `n` positions. */
  function PushLabel(i: nat, n: nat): seq<real>
  {
    seq(n, j => if j == i then 1.0 else -1.0)
  }

  /** Reference `center_dual`: row `i` of `centerArray` repeated once per class. */
  function PushDual(centerArray: seq<Vec>, i: nat): seq<Vec>
    requires i < |centerArray|
  {
    seq(|centerArray|, _ => centerArray[i])
  }

  /** The cosine loss of `center_array` against class `i`'s centre broadcast to every row. */
  function PushTerm(centerArray: seq<Vec>, cos: CosineLoss, i: nat): (push: real)
    requires i < |centerArray|
    ensures NonNegative(cos) ==> push >= 0.0
  {
    cos(centerArray, PushDual(centerArray, i), PushLabel(i, |centerArray|))
  }

  /** `diff_loss` accumulated over the classes `cs`, in order. */
  function DiffLoss(centerArray: seq<Vec>, cos: CosineLoss, cs: seq<nat>): (diff: real)
    requires forall q :: 0 <= q < |cs| ==> cs[q] < |centerArray|
    ensures NonNegative(cos) ==> diff >= 0.0
    ensures |cs| == 0 ==> diff == 0.0
  {
    if |cs| == 0 then 0.0
    else DiffLoss(centerArray, cos, cs[..|cs| - 1]) + PushTerm(centerArray, cos, cs[|cs| - 1])
  }

  /** The second loop of `forward`: one push term per class not in `maskList`. */
  method PushLoss(centerArray: seq<Vec>, maskList: seq<nat>, numClasses: nat, dim: nat, cos: CosineLoss)
    returns (diffLoss: real)
    requires |centerArray| == numClasses
    ensures diffLoss == DiffLoss(centerArray, cos, ClassesNotIn(maskList, numClasses))
  {
    diffLoss := 0.0;
    var i := 0;
    while i < numClasses
      invariant 0 <= i <= numClasses
      invariant diffLoss == DiffLoss(centerArray, cos, ClassesNotIn(maskList, i))
    {
      if i !in maskList {
        var pushLabel, centerDual := PushPass(centerArray, i, numClasses, dim);
        diffLoss := diffLoss + cos(centerArray, centerDual, pushLabel);
      }
      DiffLossStep(centerArray, cos, maskList, i);
      i := i + 1;
    }
  }

  /** Visiting class `i` adds its push term to `diff_loss`, or nothing when it is in `maskList`. */
  lemma DiffLossStep(centerArray: seq<Vec>, cos: CosineLoss, maskList: seq<nat>, i: nat)
    requires i < |centerArray|
    ensures DiffLoss(centerArray, cos, ClassesNotIn(maskList, i + 1))
            == DiffLoss(centerArray, cos, ClassesNotIn(maskList, i))
               + (if i in maskList then 0.0 else PushTerm(centerArray, cos, i))
  {
    var before := ClassesNotIn(maskList, i);
    if i !in maskList {
      assert ClassesNotIn(maskList, i + 1) == before + [i];
      assert (before + [i])[..|before|] == before;
    } else {
      assert ClassesNotIn(maskList, i + 1) == before;
    }
  }

  // ------------------------------------------------------------- forward

  /** `center_array` as the first loop leaves it. */
  function CenterArray(t: seq<int>, emb: seq<Vec>, dim: nat, numClasses: nat): (ca: seq<Vec>)
    requires |emb| == |t| && AllDim(emb, dim)
    ensures |ca| == numClasses
  {
    seq(numClasses, i requires 0 <= i < numClasses => CenterRow(t, emb, dim, i))
  }

  /** `BaseEmbedLoss.forward`: push terms of the non-empty classes plus their pull terms. */
  method EmbedForward(targets: seq<int>, emb: seq<Vec>, numClasses: nat, dim: nat, cos: CosineLoss)
    returns (loss: real)
    requires |emb| == |targets| && AllDim(emb, dim)
    ensures loss == DiffLoss(CenterArray(targets, emb, dim, numClasses), cos,
                             ClassesNotIn(EmptyClasses(targets, dim, numClasses), numClasses))
                    + SimLoss(targets, emb, dim, cos, numClasses)
  {
    var maskList, centerArray, simLoss := ClassCenters(targets, emb, numClasses, dim, cos);
    assert centerArray == CenterArray(targets, emb, dim, numClasses);
    var diffLoss := PushLoss(centerArray, maskList, numClasses, dim, cos);
    loss := diffLoss + simLoss;
  }

  /** The push loop runs for exactly the classes that some pixel carries. */
  lemma PushedClassesArePresent(t: seq<int>, dim: nat, numClasses: nat)
    requires dim >= 1
    ensures forall c :: c in ClassesNotIn(EmptyClasses(t, dim, numClasses), numClasses) <==>
              0 <= c < numClasses && c in t
  {
    var ml := EmptyClasses(t, dim, numClasses);
    EmptyClassesExact(t, dim, numClasses);
    ClassesNotInExact(ml, numClasses);
    forall c | 0 <= c < numClasses ensures c in ml <==> c !in t {
      EmptyClassMeansAbsent(t, dim, c);
    }
  }

  /**
   * A target map of class 0 alone leaves one push pass, for class 0 itself:
   * no other class contributes a push term.
   */
  lemma OnlyClassZeroPushesOnce(t: seq<int>, dim: nat, numClasses: nat)
    requires dim >= 1 && numClasses >= 1 && |t| >= 1
    requires forall p :: 0 <= p < |t| ==> t[p] == 0
    ensures ClassesNotIn(EmptyClasses(t, dim, numClasses), numClasses) == [0]
  {
    var ml := EmptyClasses(t, dim, numClasses);
    EmptyClassesExact(t, dim, numClasses);
    assert t[0] == 0;
    EmptyClassMeansAbsent(t, dim, 0);
    forall c | 1 <= c < numClasses ensures c in ml {
      EmptyClassMeansAbsent(t, dim, c);
    }
    OnlyFirstClassMissing(ml, numClasses);
  }

  lemma {:induction false} OnlyFirstClassMissing(maskList: seq<nat>, k: nat)
    requires k >= 1 && 0 !in maskList
    requires forall c :: 1 <= c < k ==> c in maskList
    ensures ClassesNotIn(maskList, k) == [0]
  {
    if k > 1 {
      OnlyFirstClassMissing(maskList, k - 1);
    }
  }
}
