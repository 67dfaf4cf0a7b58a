/** Small generic helpers: a rotated view of a ring, an ordered pair, a
    "replace if not larger" update, and the uniqueness of division with
    remainder used by the pixel and cell numberings. */
module Utils {

  /** `v.skip(k).chain(v.take(k))`: the ring rotated left by `k`. When `k`
      exceeds the length, `skip` yields nothing and `take` yields everything. */
  function RingIter<T>(v: seq<T>, k: nat): (r: seq<T>)
    ensures |r| == |v|
    ensures k <= |v| ==> r == v[k..] + v[..k]
  {
    var m := if k <= |v| then k else |v|;
    v[m..] + v[..m]
  }

  /** Element `i` of the rotation is element `i + k` of the ring, cyclically. */
  lemma RingIterAt<T>(v: seq<T>, k: nat, i: nat)
    requires k <= |v| && i < |v|
    ensures RingIter(v, k)[i] == v[(i + k) % |v|]
  {
    var n := |v|;
    if i + k < n {
      DivModUnique(i + k, n, 0, i + k);
      assert RingIter(v, k)[i] == v[k..][i];
    } else {
      DivModUnique(i + k, n, 1, i + k - n);
      assert RingIter(v, k)[i] == v[..k][i - (n - k)];
    }
  }

  /** Rotating by nothing, or by more than the whole ring, changes nothing. */
  lemma RingIterIdentity<T>(v: seq<T>, k: nat)
    requires k == 0 || k >= |v|
    ensures RingIter(v, k) == v
  {
    assert v[|v|..] + v[..|v|] == v;
    assert v[0..] + v[..0] == v;
  }

  /** `v.iter().zip(ring_iter(v, 1))`: every element paired with its successor,
      the last one with the first. */
  function Successors<T>(v: seq<T>): (r: seq<(T, T)>)
    ensures |r| == |v|
  {
    var w := RingIter(v, 1);
    seq(|v|, i requires 0 <= i < |v| => (v[i], w[i]))
  }

  lemma SuccessorsAt<T>(v: seq<T>, i: nat)
    requires i < |v|
    ensures Successors(v)[i] == (v[i], v[(i + 1) % |v|])
  {
    RingIterAt(v, 1, i);
  }

  /** The pair of `lhs` and `rhs` in ascending order, `(lhs, rhs)` on ties. */
  function MinMax(lhs: real, rhs: real): (r: (real, real))
    ensures r.0 <= r.1
    ensures (r.0 == lhs && r.1 == rhs) || (r.0 == rhs && r.1 == lhs)
    ensures lhs <= rhs ==> r == (lhs, rhs)
  {
    if lhs <= rhs then (lhs, rhs) else (rhs, lhs)
  }

  /** `f64::abs`. */
  function Abs(x: real): (r: real)
    ensures r >= 0.0 && (r == x || r == -x)
  {
    if x < 0.0 then -x else x
  }

  /** `f64::max`, which never sees a NaN here. */
  function Max(a: real, b: real): (m: real)
    ensures m >= a && m >= b && (m == a || m == b)
  {
    if a >= b then a else b
  }

  /** Whether `lhs` would be a new strict minimum against `rhs`. */
  function MaybeMin(lhs: real, rhs: real): bool
  {
    lhs < rhs
  }

  /** `min_in_place(&mut lhs, rhs)`: `lhs` takes `rhs` when `lhs >= rhs`
      (ties included) and the call reports whether it did. The `&mut`
      parameter is the pair of `lhs` in and `newLhs` out. */
  method MinInPlace(lhs: real, rhs: real) returns (newLhs: real, replaced: bool)
    ensures replaced <==> lhs >= rhs
    ensures replaced ==> newLhs == rhs
    ensures !replaced ==> newLhs == lhs
    ensures newLhs <= lhs && newLhs <= rhs
    ensures replaced == !MaybeMin(lhs, rhs)
  {
    newLhs := lhs;
    replaced := false;
    if newLhs >= rhs {
      newLhs := rhs;
      replaced := true;
    }
  }

  /** Division with remainder has one answer. */
  lemma DivModUnique(i: nat, w: nat, q: nat, r: nat)
    requires r < w && i == q * w + r
    ensures i / w == q && i % w == r
  {
    var q', r' := i / w, i % w;
    assert i == q' * w + r';
    if q < q' {
      MulMono(q + 1, q', w);
      assert false;
    } else if q' < q {
      MulMono(q' + 1, q, w);
      assert false;
    }
  }

  /** Below `m` rows of `w`, the row number is below `m`. */
  lemma DivBelow(k: nat, w: nat, m: nat)
    requires k < m * w
    ensures k / w < m
  {
    var q := k / w;
    assert k == q * w + k % w;
    if q >= m {
      MulMono(m, q, w);
      assert false;
    }
  }

  lemma MulMono(a: nat, b: nat, w: nat)
    requires a <= b
    ensures a * w <= b * w
  {
    assert b * w == a * w + (b - a) * w;
  }
}
