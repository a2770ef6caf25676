/** Types shared by every component: bytes, options and zero-filled buffers. */
module Common {

  type Byte = b: int | 0 <= b < 256

  datatype Option<+T> = None | Some(value: T)

  datatype Result<+T, +E> = Ok(value: T) | Err(error: E)

  function Min(a: int, b: int): int {
    if a <= b then a else b
  }

  function Max(a: int, b: int): int {
    if a <= b then b else a
  }

  function Pow2(n: nat): nat {
    if n == 0 then 1 else 2 * Pow2(n - 1)
  }

  /** `vec![0u8; n]` */
  function Zeros(n: nat): (z: seq<Byte>)
    ensures |z| == n && forall i :: 0 <= i < n ==> z[i] == 0
  {
    seq(n, i => 0)
  }

  lemma SmallMultiple(d: int, e: int)
    requires 0 < d
    ensures -d < d * e < d ==> e == 0
  {
    if e >= 1 {
      assert d * e >= d;
    } else if e <= -1 {
      assert d * e <= -d;
    }
  }

  lemma DivisionIs(n: nat, d: nat, q: nat, r: nat)
    requires 0 < d && n == d * q + r && r < d
    ensures n / d == q && n % d == r
  {
    var k := n / d;
    assert n == d * k + n % d;
    assert d * (k - q) == d * k - d * q;
    SmallMultiple(d, k - q);
  }
}
