/** The integrity checksum of a packet: Fletcher-16 with modulus 255, two
    running sums over the bytes in order, both starting at 0. */
module Checksum {
  import opened Types

  /** The pair `(sum1, sum2)` after the checksum loop has consumed `data`:
      a left fold in which each byte `b` sets `sum1 := (sum1 + b) % 255` and
      then `sum2 := (sum2 + sum1) % 255`. Both results are at most 254. */
  function Fletcher(data: seq<byte>): (r: (byte, byte))
    ensures r.0 <= 254 && r.1 <= 254
  {
    if |data| == 0 then (0, 0)
    else
      var prev := Fletcher(data[..|data| - 1]);
      var sum1 := (prev.0 + data[|data| - 1]) % 255;
      (sum1, (prev.1 + sum1) % 255)
  }

  /** `calculateChecksum`: the loop over the bytes, returning the two check
      bytes `[sum1, sum2]`. */
  method CalculateChecksum(data: seq<byte>) returns (check1: byte, check2: byte)
    ensures (check1, check2) == Fletcher(data)
  {
    var sum1: byte := 0;
    var sum2: byte := 0;
    var i := 0;
    while i < |data|
      invariant 0 <= i <= |data|
      invariant (sum1, sum2) == Fletcher(data[..i])
    {
      assert data[..i + 1][..i] == data[..i];
      sum1 := (sum1 + data[i]) % 255;
      sum2 := (sum2 + sum1) % 255;
      i := i + 1;
    }
    assert data[..i] == data;
    check1, check2 := sum1, sum2;
  }

  /** Plain sum of the bytes. */
  function Sum(data: seq<byte>): int {
    if |data| == 0 then 0 else Sum(data[..|data| - 1]) + data[|data| - 1]
  }

  /** Sum of the sums of every non-empty prefix of `data`. */
  function PrefixSumTotal(data: seq<byte>): int {
    if |data| == 0 then 0 else PrefixSumTotal(data[..|data| - 1]) + Sum(data)
  }

  lemma AddMod(a: int, b: int)
    ensures (a % 255 + b) % 255 == (a + b) % 255
  {
    var q := a / 255;
    assert a == 255 * q + a % 255;
    assert a + b == (a % 255 + b) + 255 * q;
  }

  /** The two check bytes in closed form: the byte sum modulo 255, and the
      sum of all prefix sums modulo 255. */
  lemma {:induction false} FletcherClosedForm(data: seq<byte>)
    ensures Fletcher(data) == (Sum(data) % 255, PrefixSumTotal(data) % 255)
  {
    if |data| > 0 {
      var init := data[..|data| - 1];
      FletcherClosedForm(init);
      AddMod(Sum(init), data[|data| - 1]);
      AddMod(PrefixSumTotal(init), Fletcher(data).0);
      AddMod(Sum(data), PrefixSumTotal(init));
    }
  }

  /** Replacing one byte changes the plain sum by the difference of the two values. */
  lemma {:induction false} SumOfUpdate(data: seq<byte>, i: nat, v: byte)
    requires i < |data|
    ensures Sum(data[i := v]) == Sum(data) - data[i] + v
  {
    var n := |data|;
    var init := data[..n - 1];
    if i < n - 1 {
      assert data[i := v][..n - 1] == init[i := v];
      SumOfUpdate(init, i, v);
    } else {
      assert data[i := v][..n - 1] == init;
    }
  }

  /** Moving a total by the difference of two bytes of distinct residues
      moves its residue modulo 255. */
  lemma ResidueShift(s: int, b: byte, v: byte)
    requires b % 255 != v % 255
    ensures (s - b + v) % 255 != s % 255
  {
  }

  /** Any change to a single byte that alters its value modulo 255 (every change
      except swapping 0 and 255) alters the first check byte. */
  lemma SingleByteChangeAltersChecksum(data: seq<byte>, i: nat, v: byte)
    requires i < |data| && data[i] % 255 != v % 255
    ensures Fletcher(data[i := v]).0 != Fletcher(data).0
  {
    FletcherClosedForm(data);
    FletcherClosedForm(data[i := v]);
    SumOfUpdate(data, i, v);
    ResidueShift(Sum(data), data[i], v);
  }

  /** 2 to the power `k`, for a bit position of a byte. */
  function Pow2(k: nat): nat
    requires k < 8
  {
    [1, 2, 4, 8, 16, 32, 64, 128][k]
  }

  /** Flipping the bit of weight `m` of an 8-bit value moves it up by `m` when
      the bit was clear and down by `m` when it was set. */
  lemma FlipMask(x: bv8, m: bv8)
    requires m == 1 || m == 2 || m == 4 || m == 8 || m == 16 || m == 32 || m == 64 || m == 128
    ensures (x ^ m) as int == x as int + m as int || (x ^ m) as int == x as int - m as int
  {
    if m == 1 { assert (x ^ 1) as int == x as int + 1 || (x ^ 1) as int == x as int - 1; }
    else if m == 2 { assert (x ^ 2) as int == x as int + 2 || (x ^ 2) as int == x as int - 2; }
    else if m == 4 { assert (x ^ 4) as int == x as int + 4 || (x ^ 4) as int == x as int - 4; }
    else if m == 8 { assert (x ^ 8) as int == x as int + 8 || (x ^ 8) as int == x as int - 8; }
    else if m == 16 { assert (x ^ 16) as int == x as int + 16 || (x ^ 16) as int == x as int - 16; }
    else if m == 32 { assert (x ^ 32) as int == x as int + 32 || (x ^ 32) as int == x as int - 32; }
    else if m == 64 { assert (x ^ 64) as int == x as int + 64 || (x ^ 64) as int == x as int - 64; }
    else { assert (x ^ 128) as int == x as int + 128 || (x ^ 128) as int == x as int - 128; }
  }

  /** A single-bit flip `x ^ (1 << k)` of a byte is a move by `Pow2(k)`, up or
      down: the kind of change `BitFlipAltersResidue` is about. */
  lemma FlipMovesByPow2(x: bv8, k: nat)
    requires k < 8
    ensures var y := x ^ (1 << k); y as int == x as int + Pow2(k) || y as int == x as int - Pow2(k)
  {
    var m: bv8 := 1 << k;
    assert m as int == Pow2(k) && (m == 1 || m == 2 || m == 4 || m == 8 || m == 16 || m == 32 || m == 64 || m == 128) by {
      if k == 0 { assert m == 1; } else if k == 1 { assert m == 2; } else if k == 2 { assert m == 4; }
      else if k == 3 { assert m == 8; } else if k == 4 { assert m == 16; } else if k == 5 { assert m == 32; }
      else if k == 6 { assert m == 64; } else { assert m == 128; }
    }
    FlipMask(x, m);
  }

  /** Moving a byte by a power of two below 256, which is what a single-bit flip
      does (`FlipMovesByPow2`), never preserves its value modulo 255: the first
      check byte sees it. */
  lemma BitFlipAltersResidue(b: byte, v: byte, k: nat)
    requires k < 8 && (v == b + Pow2(k) || v == b - Pow2(k))
    ensures b % 255 != v % 255
  {
  }
}
