/** Bitmaps over bytes: bit `i` of a map is bit `i % 8` of its byte `i / 8`. */
module Bits {
  import opened Common

  predicate Bit(b: nat, c: nat) {
    if c == 0 then b % 2 == 1 else Bit(b / 2, c - 1)
  }

  /** `b | 1 << c` */
  function WithBit(b: nat, c: nat): nat {
    if c == 0 then (if b % 2 == 1 then b else b + 1) else b % 2 + 2 * WithBit(b / 2, c - 1)
  }

  lemma {:induction false} WithBitSets(b: nat, c: nat, d: nat)
    ensures Bit(WithBit(b, c), d) <==> d == c || Bit(b, d)
  {
    if c != 0 {
      assert WithBit(b, c) / 2 == WithBit(b / 2, c - 1) && WithBit(b, c) % 2 == b % 2;
      if d != 0 { WithBitSets(b / 2, c - 1, d - 1); }
    } else {
      assert WithBit(b, c) / 2 == b / 2;
    }
  }

  lemma {:induction false} WithBitBounded(b: nat, c: nat, n: nat)
    requires b < Pow2(n) && c < n
    ensures WithBit(b, c) < Pow2(n)
  {
    if c != 0 { WithBitBounded(b / 2, c - 1, n - 1); }
  }

  /** Or-ing one bit into a byte. */
  function OrBit(b: Byte, c: nat): (r: Byte)
    requires c < 8
    ensures forall d :: 0 <= d < 8 ==> (Bit(r, d) <==> d == c || Bit(b, d))
  {
    assert Pow2(8) == 256 by { assert Pow2(4) == 16; }
    WithBitBounded(b, c, 8);
    assert forall d :: 0 <= d < 8 ==> (Bit(WithBit(b, c), d) <==> d == c || Bit(b, d)) by {
      forall d | 0 <= d < 8 ensures Bit(WithBit(b, c), d) <==> d == c || Bit(b, d) { WithBitSets(b, c, d); }
    }
    WithBit(b, c)
  }

  lemma {:induction false} ZeroHasNoBits(c: nat)
    ensures !Bit(0, c)
  {
    if c != 0 { ZeroHasNoBits(c - 1); }
  }

  predicate MapBit(img: seq<Byte>, off: nat, i: nat)
    requires off + i / 8 < |img|
  {
    Bit(img[off + i / 8], i % 8)
  }

  /** Set bits among the first `n` of the bitmap at `off`. */
  function CountBits(img: seq<Byte>, off: nat, n: nat): nat
    requires n > 0 ==> off + (n - 1) / 8 < |img|
  {
    if n == 0 then 0 else CountBits(img, off, n - 1) + if MapBit(img, off, n - 1) then 1 else 0
  }

  lemma {:induction false} CountFrom(img: seq<Byte>, off: nat, n: nat, used: nat)
    requires n > 0 ==> off + (n - 1) / 8 < |img|
    requires forall i :: 0 <= i < n ==> (MapBit(img, off, i) <==> used <= i)
    ensures CountBits(img, off, n) == Max(n - used, 0)
  {
    if n > 0 { CountFrom(img, off, n - 1, used); }
  }

  ghost predicate MarkedTo(img: seq<Byte>, off: nat, n: nat, used: nat, i: nat)
    requires n > 0 ==> off + (n - 1) / 8 < |img|
  {
    forall j :: 0 <= j < n ==> (MapBit(img, off, j) <==> used <= j < i)
  }

  lemma MarkOne(a: seq<Byte>, b: seq<Byte>, off: nat, n: nat, used: nat, i: nat)
    requires i < n && off + (n - 1) / 8 < |a| && MarkedTo(a, off, n, used, i) && used <= i
    requires b == a[off + i / 8 := OrBit(a[off + i / 8], i % 8)]
    ensures MarkedTo(b, off, n, used, i + 1)
  {
    forall j | 0 <= j < n ensures MapBit(b, off, j) <==> used <= j < i + 1 {
      assert MapBit(a, off, j) <==> used <= j < i;
      if j / 8 == i / 8 {
        assert Bit(b[off + i / 8], j % 8) <==> j % 8 == i % 8 || Bit(a[off + i / 8], j % 8);
      }
    }
  }

  /** Marks bits `used..n` of a blank bitmap as free. */
  method MarkFree(image: array<Byte>, off: nat, n: nat, used: nat)
    requires 0 < n && off + (n - 1) / 8 < image.Length
    modifies image
    ensures old(forall i :: off <= i <= off + (n - 1) / 8 ==> image[i] == 0) ==> MarkedTo(image[..], off, n, used, n)
    ensures forall i | 0 <= i < image.Length :: off <= i <= off + (n - 1) / 8 || image[i] == old(image[i])
  {
    ghost var blank := forall i :: off <= i <= off + (n - 1) / 8 ==> image[i] == 0;
    if blank {
      forall j | 0 <= j < n ensures !MapBit(image[..], off, j) { ZeroHasNoBits(j % 8); }
    }
    for i := 0 to n
      invariant blank ==> MarkedTo(image[..], off, n, used, i)
      invariant forall i | 0 <= i < image.Length :: off <= i <= off + (n - 1) / 8 || image[i] == old(image[i])
    {
      if i >= used {
        ghost var a := image[..];
        image[off + i / 8] := OrBit(image[off + i / 8], i % 8);
        if blank { MarkOne(a, image[..], off, n, used, i); }
      }
    }
  }
}
