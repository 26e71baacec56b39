/**
 Byte buffers and the big-endian fields of ISO/IEC 14496-12 boxes.
 A buffer is no longer than the largest slice or file offset the platform allows,
 so an offset a little past its end still fits an unsigned 64-bit integer.
 */
module Bytes {
  import opened Prelude

  type byte = b: int | 0 <= b < 256

  const ISIZE_MAX: nat := 0x7FFF_FFFF_FFFF_FFFF

  type u64 = n: int | 0 <= n <= U64_MAX

  type Buffer = s: seq<byte> | |s| <= ISIZE_MAX

  function Pow256(n: nat): (p: nat)
    ensures p > 0
  {
    if n == 0 then 1 else 256 * Pow256(n - 1)
  }

  /** The value of a big-endian field. */
  function Be(bytes: seq<byte>): (n: nat)
    ensures n < Pow256(|bytes|)
  {
    if bytes == [] then 0
    else Be(bytes[..|bytes| - 1]) * 256 + bytes[|bytes| - 1]
  }

  /** The low `width` bytes of `n`, most significant first. */
  function ToBe(n: nat, width: nat): (bytes: seq<byte>)
    ensures |bytes| == width
  {
    if width == 0 then [] else ToBe(n / 256, width - 1) + [n % 256]
  }

  lemma ModStep(q: nat, r: nat, p: nat)
    requires p > 0 && r < 256
    ensures (q * 256 + r) % (256 * p) == (q % p) * 256 + r
  {
    var n, m := q * 256 + r, 256 * p;
    var rest := (q % p) * 256 + r;
    assert q == p * (q / p) + q % p;
    assert n == m * (q / p) + rest;
    assert 0 <= rest < m by { assert q % p <= p - 1; }
    ModUnique(n, m, q / p, rest);
  }

  lemma ModUnique(n: nat, m: nat, k: nat, rest: nat)
    requires m > 0 && rest < m && n == m * k + rest
    ensures n % m == rest
  {
    var k2 := n / m;
    assert n == m * k2 + n % m;
    if k2 < k {
      MulSteps(m, k2, k);
    } else if k < k2 {
      MulSteps(m, k, k2);
    }
  }

  lemma MulSteps(m: nat, a: nat, b: nat)
    requires a < b
    ensures m * a + m <= m * b
  {
    assert m * b == m * a + m * (b - a);
    assert m * (b - a) == m + m * (b - a - 1);
  }

  /** Writing a number in a field and reading it back keeps it modulo the field's width. */
  lemma {:induction false} BeOfToBe(n: nat, width: nat)
    ensures Be(ToBe(n, width)) == n % Pow256(width)
  {
    if width > 0 {
      var low, q, r := ToBe(n / 256, width - 1), n / 256, n % 256;
      assert ToBe(n, width)[..width - 1] == low && n == q * 256 + r;
      BeOfToBe(q, width - 1);
      LowestByte(low, r);
      ModStep(q, r, Pow256(width - 1));
    }
  }

  lemma LowestByte(high: seq<byte>, low: byte)
    ensures Be(high + [low]) == Be(high) * 256 + low
  {
    assert (high + [low])[..|high|] == high;
  }

  lemma Pow256Values()
    ensures Pow256(1) == 256 && Pow256(2) == 0x1_0000 && Pow256(3) == 0x100_0000
    ensures Pow256(4) == U32_MAX + 1 && Pow256(8) == U64_MAX + 1
  {
    assert Pow256(1) == 256 * Pow256(0);
    assert Pow256(2) == 256 * Pow256(1);
    assert Pow256(3) == 256 * Pow256(2);
    assert Pow256(4) == 256 * Pow256(3);
    assert Pow256(5) == 256 * Pow256(4);
    assert Pow256(6) == 256 * Pow256(5);
    assert Pow256(7) == 256 * Pow256(6);
    assert Pow256(8) == 256 * Pow256(7);
  }

  /** Seek and read exactly `width` bytes; a read past the end fails. */
  function ReadBe(buf: Buffer, at: nat, width: nat): (r: Option<nat>)
    ensures r.Some? <==> at + width <= |buf|
    ensures r.Some? ==> r.value < Pow256(width)
  {
    if at + width <= |buf| then Some(Be(buf[at..at + width])) else None
  }

  function U8At(buf: Buffer, at: nat): (r: Option<nat>)
    ensures r.Some? ==> r.value < 256
  {
    Pow256Values();
    ReadBe(buf, at, 1)
  }

  function U32At(buf: Buffer, at: nat): (r: Option<nat>)
    ensures r.Some? ==> r.value <= U32_MAX
  {
    Pow256Values();
    ReadBe(buf, at, 4)
  }

  function U64At(buf: Buffer, at: nat): (r: Option<nat>)
    ensures r.Some? ==> r.value <= U64_MAX
  {
    Pow256Values();
    ReadBe(buf, at, 8)
  }

  /** The buffers have one length and hold the same bytes at lo..hi. */
  ghost predicate Agree(a: Buffer, b: Buffer, lo: int, hi: int) {
    |a| == |b| && forall i :: lo <= i < hi && 0 <= i < |a| ==> a[i] == b[i]
  }

  lemma ReadBeLocal(a: Buffer, b: Buffer, at: nat, width: nat)
    requires Agree(a, b, at, at + width)
    ensures ReadBe(a, at, width) == ReadBe(b, at, width)
  {
    if at + width <= |a| {
      assert a[at..at + width] == b[at..at + width];
    }
  }

  /** `buf` with `field` written over the bytes from `at` on. */
  function Overwrite(buf: Buffer, at: nat, field: seq<byte>): (r: Buffer)
    requires at + |field| <= |buf|
    ensures |r| == |buf|
    ensures r[at..at + |field|] == field
    ensures forall i :: 0 <= i < |buf| && !(at <= i < at + |field|) ==> r[i] == buf[i]
  {
    buf[..at] + field + buf[at + |field|..]
  }
}
