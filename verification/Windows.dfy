/** One-dimensional sliding windows: window q covers positions q * stride up to q * stride + size. */
module Windows {
  import opened Arith

  /** Number of windows that fit entirely inside n positions. */
  function WindowCount(n: nat, size: nat, stride: nat): (r: int)
    ensures size <= n ==> 1 <= r
  {
    Quot(n - size, stride) + 1
  }

  /** First window tried by the gradient loops for position y. */
  function CoverLo(y: int, size: nat, stride: nat): int {
    if y < size then 0 else Quot(y - size + stride, stride)
  }

  /** One past the last window tried by the gradient loops for position y. */
  function CoverHi(y: int, stride: nat, count: int): int {
    Min(Quot(y + stride, stride), count)
  }

  /** The loop bounds enumerate exactly the windows that contain position y. */
  lemma CoverExact(y: nat, size: nat, stride: nat, count: int, q: int)
    requires stride > 0
    ensures CoverLo(y, size, stride) <= q < CoverHi(y, stride, count) <==>
            0 <= q < count && q * stride <= y < q * stride + size
    ensures 0 <= CoverLo(y, size, stride)
  {
    assert (q + 1) * stride == q * stride + stride;
    FloorLe(y + stride, stride, q + 1);
    FloorLe(y - size + stride, stride, q + 1);
    if y >= size {
      FloorLe(y - size + stride, stride, 0);
    }
    if q < 0 { MulMono(q, -1, stride); }
    if 0 <= q { MulMono(0, q, stride); }
  }

  /** A window counted by WindowCount lies inside the n positions. */
  lemma WindowInside(n: nat, size: nat, stride: nat, q: int)
    requires stride > 0 && size <= n
    ensures 0 < WindowCount(n, size, stride)
    ensures q < WindowCount(n, size, stride) <==> q * stride + size <= n
  {
    FloorLe(n - size, stride, q);
    FloorLe(n - size, stride, 0);
  }
}
