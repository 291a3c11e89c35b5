/**
 * In-place masked assignment on a flat label buffer: the tensor statements
 * `x[x == v] = y` and `x[x != v] = y`. Both `get_mask` and the OHEM
 * ignore-label remap are written with them.
 */
module Masked {

  /** `a[a == v] = x`: every element equal to `v` becomes `x`, the rest stay. */
  method AssignWhereEq(a: array<int>, v: int, x: int)
    modifies a
    ensures forall p :: 0 <= p < a.Length ==> a[p] == (if old(a[p]) == v then x else old(a[p]))
  {
    var p := 0;
    while p < a.Length
      invariant 0 <= p <= a.Length
      invariant forall q :: 0 <= q < p ==> a[q] == (if old(a[q]) == v then x else old(a[q]))
      invariant forall q :: p <= q < a.Length ==> a[q] == old(a[q])
    {
      if a[p] == v {
        a[p] := x;
      }
      p := p + 1;
    }
  }

  /** `a[a != v] = x`: every element different from `v` becomes `x`, the rest stay. */
  method AssignWhereNe(a: array<int>, v: int, x: int)
    modifies a
    ensures forall p :: 0 <= p < a.Length ==> a[p] == (if old(a[p]) != v then x else old(a[p]))
  {
    var p := 0;
    while p < a.Length
      invariant 0 <= p <= a.Length
      invariant forall q :: 0 <= q < p ==> a[q] == (if old(a[q]) != v then x else old(a[q]))
      invariant forall q :: p <= q < a.Length ==> a[q] == old(a[q])
    {
      if a[p] != v {
        a[p] := x;
      }
      p := p + 1;
    }
  }
}
