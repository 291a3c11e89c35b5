/**
 * Hard-pixel selection of the online-hard-example-mining cross-entropy
 * (`BaseOhemCELoss.forward`): drop the pixels at the ignore label, sort the
 * rest by the softmax probability of their true class, take the probability
 * at rank `min(min_kept, n-1)` as a candidate threshold, raise it to the
 * configured floor `thresh`, keep the per-pixel losses of the pixels strictly
 * below it and reduce them by `sum` or `mean`.
 *
 * Probabilities and per-pixel cross-entropy values are inputs (exact reals):
 * the softmax and the cross-entropy are not modelled.
 */
module OhemLoss {
  import opened Common
  import ScaleTarget
  import Masked

  /** One non-ignored pixel: its true-class probability and its own loss, kept together through the sort. */
  datatype Pixel = Pixel(prob: real, loss: real)

  // ------------------------------------------------------------ settings

  /** `max(1, ohem_minkeep)`. */
  function MinKept(ohemMinKeep: int): (m: int)
    ensures m >= 1 && m >= ohemMinKeep
    ensures m == 1 || m == ohemMinKeep
  {
    if ohemMinKeep >= 1 then ohemMinKeep else 1
  }

  // ------------------------------------------------------------- gather

  /** Every pixel has a probability row, and every non-ignored label indexes it. */
  ghost predicate Gatherable(pix: seq<int>, probOut: seq<seq<real>>, ignore: int)
  {
    |probOut| == |pix| &&
    forall p :: 0 <= p < |pix| ==> |probOut[p]| >= 1 && (pix[p] != ignore ==> 0 <= pix[p] < |probOut[p]|)
  }

  /**
   * `prob_out.gather(1, tmp_target)` after `tmp_target[tmp_target == ignore] = 0`:
   * the true-class probability of every non-ignored pixel (ignored pixels read class 0).
   */
  function Gather(pix: seq<int>, probOut: seq<seq<real>>, ignore: int): (prob: seq<real>)
    requires Gatherable(pix, probOut, ignore)
    ensures |prob| == |pix|
    ensures forall p :: 0 <= p < |pix| && pix[p] != ignore ==> prob[p] == probOut[p][pix[p]]
  {
    seq(|pix|, p requires 0 <= p < |pix| => probOut[p][if pix[p] == ignore then 0 else pix[p]])
  }

  // --------------------------------------------------------------- mask

  /** `prob.view(-1)[mask]` zipped with `loss_matirx[mask]`: the non-ignored pixels in pixel order. */
  function Keep(pix: seq<int>, prob: seq<real>, loss: seq<real>, ignore: int): (kept: seq<Pixel>)
    requires |prob| == |pix| && |loss| == |pix|
    ensures |kept| <= |pix|
    ensures |kept| == |pix| <==> forall p :: 0 <= p < |pix| ==> pix[p] != ignore
  {
    if |pix| == 0 then []
    else
      var n := |pix| - 1;
      assert forall p :: 0 <= p < n ==> pix[..n][p] == pix[p];
      var init := Keep(pix[..n], prob[..n], loss[..n], ignore);
      if pix[n] == ignore then init else init + [Pixel(prob[n], loss[n])]
  }

  /** The kept pixels are exactly the non-ignored ones, each with its own probability and loss. */
  lemma {:induction false} KeepMembers(pix: seq<int>, prob: seq<real>, loss: seq<real>, ignore: int, x: Pixel)
    requires |prob| == |pix| && |loss| == |pix|
    ensures x in Keep(pix, prob, loss, ignore) <==>
            exists p :: 0 <= p < |pix| && pix[p] != ignore && x == Pixel(prob[p], loss[p])
  {
    if |pix| > 0 {
      var n := |pix| - 1;
      var init := Keep(pix[..n], prob[..n], loss[..n], ignore);
      assert Keep(pix, prob, loss, ignore) ==
             if pix[n] == ignore then init else init + [Pixel(prob[n], loss[n])];
      KeepMembers(pix[..n], prob[..n], loss[..n], ignore, x);
      if exists p :: 0 <= p < |pix| && pix[p] != ignore && x == Pixel(prob[p], loss[p]) {
        var p :| 0 <= p < |pix| && pix[p] != ignore && x == Pixel(prob[p], loss[p]);
        if p < n {
          assert pix[..n][p] != ignore && x == Pixel(prob[..n][p], loss[..n][p]);
        }
      }
      if exists p :: 0 <= p < n && pix[..n][p] != ignore && x == Pixel(prob[..n][p], loss[..n][p]) {
        var p :| 0 <= p < n && pix[..n][p] != ignore && x == Pixel(prob[..n][p], loss[..n][p]);
        assert pix[p] != ignore && x == Pixel(prob[p], loss[p]);
      }
    }
  }

  /**
   * What an ignored pixel carries never matters: the class-0 probability
   * that the remap makes the gather read there, and its loss, can be anything.
   */
  lemma {:induction false} KeepIgnoresIgnored(pix: seq<int>, prob: seq<real>, loss: seq<real>,
                                              prob': seq<real>, loss': seq<real>, ignore: int)
    requires |prob| == |pix| && |loss| == |pix| && |prob'| == |pix| && |loss'| == |pix|
    requires forall p :: 0 <= p < |pix| && pix[p] != ignore ==> prob[p] == prob'[p] && loss[p] == loss'[p]
    ensures Keep(pix, prob, loss, ignore) == Keep(pix, prob', loss', ignore)
  {
    if |pix| > 0 {
      var n := |pix| - 1;
      KeepIgnoresIgnored(pix[..n], prob[..n], loss[..n], prob'[..n], loss'[..n], ignore);
    }
  }

  /** With every pixel at the ignore label nothing is kept. */
  lemma {:induction false} KeepAllIgnored(pix: seq<int>, prob: seq<real>, loss: seq<real>, ignore: int)
    requires |prob| == |pix| && |loss| == |pix|
    requires forall p :: 0 <= p < |pix| ==> pix[p] == ignore
    ensures Keep(pix, prob, loss, ignore) == []
  {
    if |pix| > 0 {
      var n := |pix| - 1;
      KeepAllIgnored(pix[..n], prob[..n], loss[..n], ignore);
    }
  }

  // --------------------------------------------------------------- sort

  /** Splitting off the last element of a sequence, as a sequence and as a multiset. */
  lemma LastOut<T>(s: seq<T>)
    requires |s| >= 1
    ensures s == s[..|s| - 1] + [s[|s| - 1]]
    ensures multiset(s[..|s| - 1]) == multiset(s) - multiset{s[|s| - 1]}
  {
    assert s == s[..|s| - 1] + [s[|s| - 1]];
  }

  /** Splitting off the first element of a sequence, as a sequence and as a multiset. */
  lemma HeadOut<T>(s: seq<T>)
    requires |s| >= 1
    ensures s == [s[0]] + s[1..]
    ensures multiset(s[1..]) == multiset(s) - multiset{s[0]}
  {
    assert s == [s[0]] + s[1..];
  }

  /** An element of a sequence's multiset sits at some index `j`; removing it removes one copy. */
  lemma PickOut<T>(t: seq<T>, x: T) returns (j: nat)
    requires x in multiset(t)
    ensures j < |t| && t[j] == x
    ensures t == t[..j] + [x] + t[j + 1..]
    ensures multiset(t[..j] + t[j + 1..]) == multiset(t) - multiset{x}
  {
    assert x in t;
    j :| 0 <= j < |t| && t[j] == x;
    assert t == t[..j] + [x] + t[j + 1..];
    assert multiset(t) == multiset(t[..j]) + multiset{x} + multiset(t[j + 1..]);
  }

  ghost predicate Ascending(s: seq<Pixel>)
  {
    forall i, j :: 0 <= i < j < |s| ==> s[i].prob <= s[j].prob
  }

  ghost predicate StrictlyAscending(s: seq<Pixel>)
  {
    forall i, j :: 0 <= i < j < |s| ==> s[i].prob < s[j].prob
  }

  /** No two pixels share a probability. */
  ghost predicate ProbsDistinct(s: seq<Pixel>)
  {
    forall i, j :: 0 <= i < |s| && 0 <= j < |s| && i != j ==> s[i].prob != s[j].prob
  }

  function Insert(x: Pixel, s: seq<Pixel>): (r: seq<Pixel>)
    requires Ascending(s)
    ensures Ascending(r)
    ensures multiset(r) == multiset(s) + multiset{x}
  {
    if |s| == 0 then [x]
    else if x.prob <= s[0].prob then [x] + s
    else
      var rest := Insert(x, s[1..]);
      assert s == [s[0]] + s[1..];
      HeadBelowTail(s);
      AddedKeepsBound(s[0].prob, x, s[1..], rest);
      ConsAscending(s[0], rest);
      [s[0]] + rest
  }

  /** A pixel at or below every pixel of an ascending order can be put in front of it. */
  lemma ConsAscending(y: Pixel, r: seq<Pixel>)
    requires Ascending(r) && forall k :: 0 <= k < |r| ==> y.prob <= r[k].prob
    ensures Ascending([y] + r)
  {
    var c := [y] + r;
    forall i, j | 0 <= i < j < |c| ensures c[i].prob <= c[j].prob {
      assert c[j] == r[j - 1];
      if i > 0 {
        assert c[i] == r[i - 1];
      }
    }
  }

  /** The head of an ascending order is at or below every later pixel, strictly so when the order is strict. */
  lemma HeadBelowTail(s: seq<Pixel>)
    requires |s| >= 1
    ensures Ascending(s) ==> forall k :: 0 <= k < |s| - 1 ==> s[0].prob <= s[1..][k].prob
    ensures StrictlyAscending(s) ==> forall k :: 0 <= k < |s| - 1 ==> s[0].prob < s[1..][k].prob
  {
    forall k | 0 <= k < |s| - 1 ensures s[1..][k] == s[k + 1] {
    }
  }

  /** A lower bound shared by `x` and every pixel of `u` bounds every pixel of a permutation of `u + [x]`. */
  lemma AddedKeepsBound(lo: real, x: Pixel, u: seq<Pixel>, r: seq<Pixel>)
    requires multiset(r) == multiset(u) + multiset{x}
    ensures lo <= x.prob && (forall k :: 0 <= k < |u| ==> lo <= u[k].prob) ==>
              forall k :: 0 <= k < |r| ==> lo <= r[k].prob
    ensures lo < x.prob && (forall k :: 0 <= k < |u| ==> lo < u[k].prob) ==>
              forall k :: 0 <= k < |r| ==> lo < r[k].prob
  {
    forall k | 0 <= k < |r| && r[k] != x ensures r[k] in u {
      assert r[k] in multiset(r);
    }
  }

  /** `sort()` on the kept pixels: ascending by probability, a permutation of them. */
  function SortByProb(s: seq<Pixel>): (r: seq<Pixel>)
    ensures Ascending(r)
    ensures multiset(r) == multiset(s)
  {
    if |s| == 0 then []
    else
      assert s == [s[0]] + s[1..];
      Insert(s[0], SortByProb(s[1..]))
  }

  /** Inserting a pixel whose probability is new keeps a sequence strictly ascending. */
  lemma {:induction false} InsertStrict(x: Pixel, s: seq<Pixel>)
    requires StrictlyAscending(s)
    requires forall k :: 0 <= k < |s| ==> s[k].prob != x.prob
    ensures StrictlyAscending(Insert(x, s))
  {
    if |s| > 0 && x.prob > s[0].prob {
      var rest := Insert(x, s[1..]);
      InsertStrict(x, s[1..]);
      HeadBelowTail(s);
      AddedKeepsBound(s[0].prob, x, s[1..], rest);
      assert Insert(x, s) == [s[0]] + rest;
    }
  }

  /** With pairwise-distinct probabilities the sorted order is strict. */
  lemma {:induction false} SortDistinctIsStrict(s: seq<Pixel>)
    requires ProbsDistinct(s)
    ensures StrictlyAscending(SortByProb(s))
  {
    if |s| > 0 {
      var tail := s[1..];
      assert ProbsDistinct(tail) by {
        forall i, j | 0 <= i < |tail| && 0 <= j < |tail| && i != j ensures tail[i].prob != tail[j].prob {
          assert tail[i] == s[i + 1] && tail[j] == s[j + 1];
        }
      }
      SortDistinctIsStrict(tail);
      var sorted := SortByProb(tail);
      forall k | 0 <= k < |sorted| ensures sorted[k].prob != s[0].prob {
        assert sorted[k] in multiset(tail);
        var j :| 0 <= j < |tail| && tail[j] == sorted[k];
        assert s[j + 1] == sorted[k];
      }
      InsertStrict(s[0], sorted);
    }
  }

  /**
   * Two ascending orders of the same pixels start at the same probability;
   * `j` locates the head of `s` in `t`.
   */
  lemma HeadsTie(s: seq<Pixel>, t: seq<Pixel>) returns (j: nat)
    requires Ascending(s) && Ascending(t) && multiset(s) == multiset(t) && |s| >= 1
    ensures j < |t| && t[j] == s[0] && t[j].prob == t[0].prob && s[0].prob == t[0].prob
  {
    j := PickOut(t, s[0]);
    var i := PickOut(s, t[0]);
    assert s[0].prob <= s[i].prob;
    assert t[0].prob <= t[j].prob;
  }

  /**
   * Dropping from an ascending order a pixel that ties with the head leaves
   * an ascending order whose probabilities are those of the original shifted by one.
   */
  lemma DropTiedWithHead(t: seq<Pixel>, j: nat)
    requires Ascending(t) && j < |t| && t[j].prob == t[0].prob
    ensures var t' := t[..j] + t[j + 1..];
            Ascending(t') && multiset(t') == multiset(t) - multiset{t[j]} &&
            forall i :: 0 <= i < |t'| ==> t'[i].prob == t[i + 1].prob
  {
    var t' := t[..j] + t[j + 1..];
    assert t == t[..j] + [t[j]] + t[j + 1..];
    assert multiset(t) == multiset(t[..j]) + multiset{t[j]} + multiset(t[j + 1..]);
    forall i | 0 <= i < |t'| ensures t'[i].prob == t[i + 1].prob {
      if i < j {
        assert t'[i] == t[i];
        assert t[0].prob <= t[i].prob <= t[i + 1].prob <= t[j].prob;
      } else {
        assert t'[i] == t[i + 1];
      }
    }
  }

  /**
   * Any two ascending orders of the same pixels agree on the probability at
   * every rank, so the candidate threshold does not depend on how the sort
   * breaks ties.
   */
  lemma {:induction false} AscendingOrdersAgree(s: seq<Pixel>, t: seq<Pixel>)
    requires Ascending(s) && Ascending(t) && multiset(s) == multiset(t)
    ensures |s| == |t|
    ensures forall i :: 0 <= i < |s| ==> s[i].prob == t[i].prob
  {
    assert |s| == |multiset(s)| == |multiset(t)| == |t|;
    if |s| > 0 {
      var j := HeadsTie(s, t);
      DropTiedWithHead(t, j);
      var t' := t[..j] + t[j + 1..];
      var s' := s[1..];
      HeadOut(s);
      assert Ascending(s');
      AscendingOrdersAgree(s', t');
      forall i | 0 < i < |s| ensures s[i].prob == t[i].prob {
        assert s[i] == s'[i - 1];
        assert s'[i - 1].prob == t'[i - 1].prob;
      }
    }
  }

  // ---------------------------------------------------------- threshold

  /** `min(min_kept, n - 1)` for `n` sorted probabilities. */
  function Rank(minKept: int, n: nat): (k: nat)
    requires minKept >= 1 && n >= 1
    ensures k < n && k <= minKept
    ensures k == minKept || k == n - 1
  {
    if minKept <= n - 1 then minKept else n - 1
  }

  /** `sort_prob[min(min_kept, n-1)] if n > 0 else 0.0`. */
  function CandidateThreshold(sorted: seq<Pixel>, minKept: int): (c: real)
    requires minKept >= 1
    ensures |sorted| == 0 ==> c == 0.0
    ensures |sorted| > 0 && Ascending(sorted) ==>
              (forall i :: 0 <= i <= Rank(minKept, |sorted|) ==> sorted[i].prob <= c) &&
              (forall i :: Rank(minKept, |sorted|) <= i < |sorted| ==> c <= sorted[i].prob)
  {
    if |sorted| > 0 then sorted[Rank(minKept, |sorted|)].prob else 0.0
  }

  /** `max(min_threshold, thresh)`. */
  function Threshold(sorted: seq<Pixel>, minKept: int, thresh: real): (thr: real)
    requires minKept >= 1
    ensures thr >= thresh && thr >= CandidateThreshold(sorted, minKept)
    ensures thr == thresh || thr == CandidateThreshold(sorted, minKept)
  {
    var candidate := CandidateThreshold(sorted, minKept);
    if candidate >= thresh then candidate else thresh
  }

  // ---------------------------------------------------------- selection

  /** `sort_loss_matirx[sort_prob < threshold]`. */
  function SelectBelow(s: seq<Pixel>, thr: real): (sel: seq<real>)
    ensures |sel| <= |s|
  {
    if |s| == 0 then []
    else
      var n := |s| - 1;
      SelectBelow(s[..n], thr) + (if s[n].prob < thr then [s[n].loss] else [])
  }

  /**
   * Every pixel is selected exactly when all are below the threshold, and
   * none exactly when all are at or above it.
   */
  lemma {:induction false} SelectAllOrNone(s: seq<Pixel>, thr: real)
    ensures |SelectBelow(s, thr)| == |s| <==> forall i :: 0 <= i < |s| ==> s[i].prob < thr
    ensures SelectBelow(s, thr) == [] <==> forall i :: 0 <= i < |s| ==> s[i].prob >= thr
  {
    if |s| > 0 {
      var n := |s| - 1;
      SelectAllOrNone(s[..n], thr);
      assert forall i :: 0 <= i < n ==> s[..n][i] == s[i];
    }
  }

  function Losses(s: seq<Pixel>): seq<real>
  {
    seq(|s|, i requires 0 <= i < |s| => s[i].loss)
  }

  /** The first `m` pixels are below `thr` and none after them is. */
  ghost predicate SplitsAt(s: seq<Pixel>, thr: real, m: nat)
  {
    m <= |s| &&
    (forall i :: 0 <= i < m ==> s[i].prob < thr) &&
    (forall i :: m <= i < |s| ==> s[i].prob >= thr)
  }

  /**
   * On an ascending order the selection is a prefix: the losses of the first
   * `m` pixels, all below the threshold, and no pixel after them is.
   */
  lemma {:induction false} SelectionIsPrefix(s: seq<Pixel>, thr: real)
    requires Ascending(s)
    ensures SelectBelow(s, thr) == Losses(s[..|SelectBelow(s, thr)|])
    ensures SplitsAt(s, thr, |SelectBelow(s, thr)|)
  {
    if |s| > 0 {
      var n := |s| - 1;
      if s[n].prob < thr {
        forall i | 0 <= i < |s| ensures s[i].prob < thr {
          assert s[i].prob <= s[n].prob;
        }
        AllBelowSelectsAll(s, thr);
        assert s[..|s|] == s;
      } else {
        var init := s[..n];
        assert Ascending(init);
        SelectionIsPrefix(init, thr);
        var m := |SelectBelow(init, thr)|;
        assert SelectBelow(s, thr) == SelectBelow(init, thr);
        assert init[..m] == s[..m];
        forall i | 0 <= i < |s| ensures (i < m ==> s[i].prob < thr) && (i >= m ==> s[i].prob >= thr) {
          if i < n {
            assert s[i] == init[i];
          }
        }
      }
    }
  }

  /** When every pixel is below the threshold, all their losses are selected, in order. */
  lemma {:induction false} AllBelowSelectsAll(s: seq<Pixel>, thr: real)
    requires forall i :: 0 <= i < |s| ==> s[i].prob < thr
    ensures SelectBelow(s, thr) == Losses(s)
  {
    if |s| > 0 {
      var n := |s| - 1;
      AllBelowSelectsAll(s[..n], thr);
      assert Losses(s) == Losses(s[..n]) + [s[n].loss];
    }
  }

  lemma {:induction false} SelectAppend(a: seq<Pixel>, b: seq<Pixel>, thr: real)
    ensures SelectBelow(a + b, thr) == SelectBelow(a, thr) + SelectBelow(b, thr)
  {
    if |b| > 0 {
      var n := |b| - 1;
      SelectAppend(a, b[..n], thr);
      assert (a + b)[..|a| + n] == a + b[..n];
    } else {
      assert a + b == a;
    }
  }

  /** Selection commutes with reordering, as a multiset of losses. */
  lemma {:induction false} SelectPermutation(s: seq<Pixel>, t: seq<Pixel>, thr: real)
    requires multiset(s) == multiset(t)
    ensures multiset(SelectBelow(s, thr)) == multiset(SelectBelow(t, thr))
  {
    if |s| > 0 {
      var n := |s| - 1;
      var x := s[n];
      LastOut(s);
      var j := PickOut(t, x);
      var a, b := t[..j], t[j + 1..];
      SelectPermutation(s[..n], a + b, thr);
      SelectAppend(a, b, thr);
      SelectAppend(a, [x], thr);
      SelectAppend(a + [x], b, thr);
      SelectAppend(s[..n], [x], thr);
      var sa, sx, sb := SelectBelow(a, thr), SelectBelow([x], thr), SelectBelow(b, thr);
      assert SelectBelow(t, thr) == sa + sx + sb;
      assert multiset(SelectBelow(t, thr)) == multiset(sa) + multiset(sx) + multiset(sb);
      assert multiset(SelectBelow(s, thr)) == multiset(SelectBelow(a + b, thr)) + multiset(sx);
    } else {
      assert t == [];
    }
  }

  /**
   * The reference the selection is measured against: the losses of the
   * non-ignored pixels whose probability is below `thr`, in pixel order.
   */
  function HardLosses(pix: seq<int>, prob: seq<real>, loss: seq<real>, ignore: int, thr: real): (hard: seq<real>)
    requires |prob| == |pix| && |loss| == |pix|
    ensures |hard| <= |pix|
  {
    if |pix| == 0 then []
    else
      var n := |pix| - 1;
      HardLosses(pix[..n], prob[..n], loss[..n], ignore, thr)
        + (if pix[n] != ignore && prob[n] < thr then [loss[n]] else [])
  }

  lemma {:induction false} KeepThenSelect(pix: seq<int>, prob: seq<real>, loss: seq<real>, ignore: int, thr: real)
    requires |prob| == |pix| && |loss| == |pix|
    ensures SelectBelow(Keep(pix, prob, loss, ignore), thr) == HardLosses(pix, prob, loss, ignore, thr)
  {
    if |pix| > 0 {
      var n := |pix| - 1;
      var init := Keep(pix[..n], prob[..n], loss[..n], ignore);
      KeepThenSelect(pix[..n], prob[..n], loss[..n], ignore, thr);
      if pix[n] != ignore {
        assert (init + [Pixel(prob[n], loss[n])])[..|init|] == init;
      }
    }
  }

  /**
   * The selected losses, as a multiset, are exactly the losses of the
   * non-ignored pixels whose true-class probability is below the threshold.
   */
  lemma HardSelection(pix: seq<int>, prob: seq<real>, loss: seq<real>, ignore: int, thr: real)
    requires |prob| == |pix| && |loss| == |pix|
    ensures multiset(SelectBelow(SortByProb(Keep(pix, prob, loss, ignore)), thr))
            == multiset(HardLosses(pix, prob, loss, ignore, thr))
  {
    var kept := Keep(pix, prob, loss, ignore);
    SelectPermutation(SortByProb(kept), kept, thr);
    KeepThenSelect(pix, prob, loss, ignore, thr);
  }

  /**
   * The library sort is not stable; any ascending order of the kept pixels
   * gives the same threshold and the same selected losses as `SortByProb`.
   */
  lemma AnySortAgrees(kept: seq<Pixel>, t: seq<Pixel>, minKept: int, thresh: real)
    requires minKept >= 1 && Ascending(t) && multiset(t) == multiset(kept)
    ensures Threshold(t, minKept, thresh) == Threshold(SortByProb(kept), minKept, thresh)
    ensures var thr := Threshold(t, minKept, thresh);
            multiset(SelectBelow(t, thr)) == multiset(SelectBelow(SortByProb(kept), thr))
  {
    var sorted := SortByProb(kept);
    AscendingOrdersAgree(t, sorted);
    SelectPermutation(t, sorted, Threshold(t, minKept, thresh));
  }

  /**
   * The pixel just before rank `min(min_kept, n-1)` is strictly below the
   * pixel at that rank: no earlier pixel ties with the candidate.
   */
  ghost predicate RankSeparated(s: seq<Pixel>, minKept: int)
    requires minKept >= 1 && |s| >= 1
  {
    var k := Rank(minKept, |s|);
    k == 0 || s[k - 1].prob < s[k].prob
  }

  /** Pairwise-distinct probabilities, sorted, separate every rank. */
  lemma StrictSeparatesRank(s: seq<Pixel>, minKept: int)
    requires minKept >= 1 && |s| >= 1 && StrictlyAscending(s)
    ensures RankSeparated(s, minKept)
  {
  }

  /**
   * When no pixel before rank `min(min_kept, n-1)` ties with the candidate,
   * at least that many pixels are selected, and exactly that many when the
   * candidate is not below the floor.
   */
  lemma SelectsAtLeastRank(s: seq<Pixel>, minKept: int, thresh: real)
    requires minKept >= 1 && |s| >= 1 && Ascending(s) && RankSeparated(s, minKept)
    ensures var k := Rank(minKept, |s|);
            var sel := SelectBelow(s, Threshold(s, minKept, thresh));
            |sel| >= k && (CandidateThreshold(s, minKept) >= thresh ==> |sel| == k)
  {
    var k := Rank(minKept, |s|);
    var thr := Threshold(s, minKept, thresh);
    SelectionIsPrefix(s, thr);
    if k > 0 {
      assert s[k - 1].prob < s[k].prob <= thr;
    }
    if CandidateThreshold(s, minKept) >= thresh {
      assert s[k].prob == thr;
    }
  }

  /**
   * When the candidate is not below the floor, exactly `min(min_kept, n-1)`
   * pixels are selected if and only if no earlier pixel ties with the candidate.
   */
  lemma SelectsRankIffSeparated(s: seq<Pixel>, minKept: int, thresh: real)
    requires minKept >= 1 && |s| >= 1 && Ascending(s)
    requires CandidateThreshold(s, minKept) >= thresh
    ensures |SelectBelow(s, Threshold(s, minKept, thresh))| == Rank(minKept, |s|)
            <==> RankSeparated(s, minKept)
  {
    var k := Rank(minKept, |s|);
    var thr := Threshold(s, minKept, thresh);
    SelectionIsPrefix(s, thr);
    assert s[k].prob == thr;
    if RankSeparated(s, minKept) {
      SelectsAtLeastRank(s, minKept, thresh);
    }
    if |SelectBelow(s, thr)| == k && k > 0 {
      assert s[k - 1].prob < thr;
    }
  }

  /**
   * When the candidate is below the floor, the threshold is `thresh` itself
   * and more than `min(min_kept, n-1)` pixels are selected, ties or not.
   */
  lemma BelowFloorSelectsBeyondRank(s: seq<Pixel>, minKept: int, thresh: real)
    requires minKept >= 1 && |s| >= 1 && Ascending(s)
    requires CandidateThreshold(s, minKept) < thresh
    ensures Threshold(s, minKept, thresh) == thresh
    ensures |SelectBelow(s, Threshold(s, minKept, thresh))| > Rank(minKept, |s|)
  {
    var k := Rank(minKept, |s|);
    var thr := Threshold(s, minKept, thresh);
    SelectionIsPrefix(s, thr);
    assert s[k].prob < thr;
  }

  /**
   * The `min_kept` guarantee exactly: at least `min(min_kept, n-1)` pixels are
   * selected if and only if the candidate is below the floor or no earlier
   * pixel ties with the candidate.
   */
  lemma ReachesRankIff(s: seq<Pixel>, minKept: int, thresh: real)
    requires minKept >= 1 && |s| >= 1 && Ascending(s)
    ensures |SelectBelow(s, Threshold(s, minKept, thresh))| >= Rank(minKept, |s|)
            <==> CandidateThreshold(s, minKept) < thresh || RankSeparated(s, minKept)
  {
    var k := Rank(minKept, |s|);
    var thr := Threshold(s, minKept, thresh);
    if CandidateThreshold(s, minKept) < thresh {
      BelowFloorSelectsBeyondRank(s, minKept, thresh);
    } else {
      SelectionIsPrefix(s, thr);
      assert s[k].prob == thr;
      if RankSeparated(s, minKept) {
        SelectsAtLeastRank(s, minKept, thresh);
      }
      if |SelectBelow(s, thr)| >= k && k > 0 {
        assert s[k - 1].prob < thr;
      }
    }
  }

  /**
   * Without distinct probabilities the rank guarantee fails: when every kept
   * pixel ties at a probability at or above the floor, the threshold is that
   * probability and the strict comparison selects nothing.
   */
  lemma AllTiedSelectsNothing(s: seq<Pixel>, minKept: int, thresh: real, v: real)
    requires minKept >= 1 && |s| >= 1 && v >= thresh
    requires forall i :: 0 <= i < |s| ==> s[i].prob == v
    ensures Threshold(s, minKept, thresh) == v
    ensures SelectBelow(s, Threshold(s, minKept, thresh)) == []
  {
    assert Ascending(s);
    SelectionIsPrefix(s, v);
    assert s[0].prob == v;
  }

  /**
   * Pairwise-distinct probabilities, which separate every rank for `SelectsAtLeastRank`, hold for the
   * sorted kept pixels whenever no two non-ignored pixels share a probability.
   */
  lemma KeepDistinct(pix: seq<int>, prob: seq<real>, loss: seq<real>, ignore: int)
    requires |prob| == |pix| && |loss| == |pix|
    requires forall p, q :: 0 <= p < |pix| && 0 <= q < |pix| && p != q && pix[p] != ignore && pix[q] != ignore
               ==> prob[p] != prob[q]
    ensures StrictlyAscending(SortByProb(Keep(pix, prob, loss, ignore)))
  {
    KeepDistinctProbs(pix, prob, loss, ignore);
    SortDistinctIsStrict(Keep(pix, prob, loss, ignore));
  }

  lemma {:induction false} KeepDistinctProbs(pix: seq<int>, prob: seq<real>, loss: seq<real>, ignore: int)
    requires |prob| == |pix| && |loss| == |pix|
    requires forall p, q :: 0 <= p < |pix| && 0 <= q < |pix| && p != q && pix[p] != ignore && pix[q] != ignore
               ==> prob[p] != prob[q]
    ensures ProbsDistinct(Keep(pix, prob, loss, ignore))
  {
    if |pix| > 0 {
      var n := |pix| - 1;
      var init := Keep(pix[..n], prob[..n], loss[..n], ignore);
      KeepDistinctProbs(pix[..n], prob[..n], loss[..n], ignore);
      if pix[n] != ignore {
        var x := Pixel(prob[n], loss[n]);
        var kept := init + [x];
        forall i | 0 <= i < |init| ensures init[i].prob != x.prob {
          KeepMembers(pix[..n], prob[..n], loss[..n], ignore, init[i]);
          var p :| 0 <= p < n && pix[..n][p] != ignore && init[i] == Pixel(prob[..n][p], loss[..n][p]);
          assert pix[p] != ignore && prob[p] == init[i].prob;
        }
        forall i, j | 0 <= i < |kept| && 0 <= j < |kept| && i != j ensures kept[i].prob != kept[j].prob {
          if i < |init| && j < |init| {
            assert kept[i] == init[i] && kept[j] == init[j];
          }
        }
      }
    }
  }

  /**
   * The situation where exactly `min_kept` pixels sit below `thresh < 1` and every other
   * pixel is certain: the candidate is the first certain pixel, so the
   * threshold is `1.0`, not `thresh`, and exactly `min_kept` pixels are selected.
   */
  lemma CertainRestThreshold(s: seq<Pixel>, minKept: int, thresh: real)
    requires minKept >= 1 && |s| > minKept && thresh < 1.0 && Ascending(s)
    requires forall i :: 0 <= i < minKept ==> s[i].prob < thresh
    requires forall i :: minKept <= i < |s| ==> s[i].prob == 1.0
    ensures Threshold(s, minKept, thresh) == 1.0
    ensures |SelectBelow(s, Threshold(s, minKept, thresh))| == minKept
  {
    SelectionIsPrefix(s, 1.0);
    assert s[minKept - 1].prob < thresh < 1.0;
    assert s[minKept].prob == 1.0;
  }

  // ---------------------------------------------------------- reduction

  function Sum(s: seq<real>): (total: real)
    ensures (forall i :: 0 <= i < |s| ==> s[i] >= 0.0) ==> total >= 0.0
  {
    if |s| == 0 then 0.0
    else
      var n := |s| - 1;
      assert forall i :: 0 <= i < n ==> s[..n][i] == s[i];
      Sum(s[..n]) + s[n]
  }

  lemma {:induction false} SumAppend(a: seq<real>, b: seq<real>)
    ensures Sum(a + b) == Sum(a) + Sum(b)
  {
    if |b| > 0 {
      var n := |b| - 1;
      SumAppend(a, b[..n]);
      assert (a + b)[..|a| + n] == a + b[..n];
    } else {
      assert a + b == a;
    }
  }

  /** A sum does not depend on the order of its terms. */
  lemma {:induction false} SumPermutation(s: seq<real>, t: seq<real>)
    requires multiset(s) == multiset(t)
    ensures Sum(s) == Sum(t)
  {
    if |s| > 0 {
      var n := |s| - 1;
      var x := s[n];
      LastOut(s);
      var j := PickOut(t, x);
      var a, b := t[..j], t[j + 1..];
      SumPermutation(s[..n], a + b);
      SumAppend(a, b);
      SumAppend(a, [x]);
      SumAppend(a + [x], b);
      SumAppend(s[..n], [x]);
      assert Sum([x]) == x by {
        assert [x][..0] == [];
      }
      assert Sum(t) == Sum(a) + x + Sum(b);
    } else {
      assert t == [];
    }
  }

  /**
   * `select_loss_matrix.sum()` for `'sum'` or an empty selection,
   * `.mean()` for `'mean'`, and `NotImplementedError` otherwise.
   */
  function Reduce(reduction: string, sel: seq<real>): (r: Result<real>)
    ensures r.Err? <==> reduction != "sum" && reduction != "mean" && |sel| > 0
    ensures |sel| == 0 ==> r == Ok(0.0)
    ensures r.Ok? && reduction == "sum" ==> r.value == Sum(sel)
    ensures r.Ok? && reduction != "sum" && |sel| > 0 ==> r.value == Sum(sel) / (|sel| as real)
  {
    if reduction == "sum" || |sel| == 0 then Ok(Sum(sel))
    else if reduction == "mean" then Ok(Sum(sel) / (|sel| as real))
    else Err("Reduction Error!")
  }

  /** The reduction sees only the multiset of selected losses. */
  lemma ReduceOrderFree(reduction: string, s: seq<real>, t: seq<real>)
    requires multiset(s) == multiset(t)
    ensures Reduce(reduction, s) == Reduce(reduction, t)
  {
    assert |s| == |multiset(s)| == |multiset(t)| == |t|;
    SumPermutation(s, t);
  }

  /**
   * With every pixel at the ignore label the threshold is `max(0.0, thresh)`,
   * nothing is selected and every reduction yields `0.0`.
   */
  lemma AllIgnored(pix: seq<int>, prob: seq<real>, loss: seq<real>, ignore: int,
                   minKept: int, thresh: real, reduction: string)
    requires |prob| == |pix| && |loss| == |pix| && minKept >= 1
    requires forall p :: 0 <= p < |pix| ==> pix[p] == ignore
    ensures var sorted := SortByProb(Keep(pix, prob, loss, ignore));
            var thr := Threshold(sorted, minKept, thresh);
            thr == (if thresh <= 0.0 then 0.0 else thresh) &&
            SelectBelow(sorted, thr) == [] &&
            Reduce(reduction, SelectBelow(sorted, thr)) == Ok(0.0)
  {
    KeepAllIgnored(pix, prob, loss, ignore);
  }

  // ------------------------------------------------------------ forward

  /**
   * `BaseOhemCELoss.forward` from the raw B x H x W targets, given the softmax
   * rows `probOut` and the unreduced losses `loss` of the B*oh*ow prediction
   * pixels in row-major order (`Common.FlattenBatchIndex`): the result is the reduction of the losses of
   * the non-ignored pixels below the threshold, taken in pixel order.
   */
  method OhemForward(targets: LabelBatch, b: nat, h: nat, w: nat, oh: nat, ow: nat,
                     probOut: seq<seq<real>>, loss: seq<real>, ignore: int,
                     ohemMinKeep: int, thresh: real, reduction: string)
    returns (r: Result<real>)
    requires h >= 1 && w >= 1 && oh >= 1 && ow >= 1 && IsBatch(targets, b, h, w)
    requires Gatherable(FlattenBatch(ScaleTarget.Scale(targets, b, h, w, oh, ow)), probOut, ignore)
    requires |loss| == |probOut|
    ensures var pix := FlattenBatch(ScaleTarget.Scale(targets, b, h, w, oh, ow));
            var prob := Gather(pix, probOut, ignore);
            var thr := Threshold(SortByProb(Keep(pix, prob, loss, ignore)), MinKept(ohemMinKeep), thresh);
            r == Reduce(reduction, HardLosses(pix, prob, loss, ignore, thr))
  {
    var pix := FlattenBatch(ScaleTarget.Scale(targets, b, h, w, oh, ow));
    var tmpTarget := new int[|pix|](p requires 0 <= p < |pix| => pix[p]);
    Masked.AssignWhereEq(tmpTarget, ignore, 0);
    var remapped := tmpTarget[..];
    assert forall p :: 0 <= p < |pix| ==> remapped[p] == if pix[p] == ignore then 0 else pix[p];
    var prob := seq(|pix|, p requires 0 <= p < |pix| => probOut[p][remapped[p]]);
    assert prob == Gather(pix, probOut, ignore);
    var minKept := MinKept(ohemMinKeep);
    var sorted := SortByProb(Keep(pix, prob, loss, ignore));
    var thr := Threshold(sorted, minKept, thresh);
    var sel := SelectBelow(sorted, thr);
    HardSelection(pix, prob, loss, ignore, thr);
    ReduceOrderFree(reduction, sel, HardLosses(pix, prob, loss, ignore, thr));
    r := Reduce(reduction, sel);
  }
}
