/**
 * The non-standard CRC-16 that guards every ACE frame (extras/ace.py, `_calc_crc`).
 * The register is seeded with 0xFFFF and each payload byte is folded in with a
 * nibble-mixing update. Python works on unbounded integers and masks with 0xFFFF;
 * the model keeps the register in 16 bits, and `MaskDropsNothing` shows that no
 * intermediate value of Python's update ever reaches above bit 15, so the two agree.
 * Bytes are integers, as in Python; `Bits` and `Value` convert between a byte or
 * the register's value and the register's bits.
 */
module Crc16 {

  /** A byte as Python sees it: an integer in 0 .. 255. */
  newtype byte = x: int | 0 <= x < 256

  /** The bits of byte `b` in the register's type, lowest bit last. */
  function Bits(b: byte): bv16
    decreases b
  {
    if b == 0 then 0 else (Bits(b / 2) << 1) | (if b % 2 == 0 then 0 else 1)
  }

  function Pow2(k: nat): (p: nat)
    ensures p >= 1
  {
    if k == 0 then 1 else 2 * Pow2(k - 1)
  }

  /** The value of the lowest `k` bits of `c`. */
  function Value(c: bv16, k: nat): nat
  {
    if k == 0 then 0 else 2 * Value(c >> 1, k - 1) + (if c & 1 == 0 then 0 else 1)
  }

  /** `k` bits hold a value below 2^k. */
  lemma {:induction false} ValueBound(c: bv16, k: nat)
    ensures Value(c, k) < Pow2(k)
  {
    if k > 0 {
      ValueBound(c >> 1, k - 1);
    }
  }

  const Seed: bv16 := 0xFFFF

  /** The bit-level step on register `crc` and a byte value `x` (at most 0xFF) held in the register's type. */
  function Mix(crc: bv16, x: bv16): bv16
  {
    var data := x ^ (crc & 0xFF);
    var mixed := data ^ ((data & 0x0F) << 4);
    ((mixed << 8) | (crc >> 8)) ^ (mixed >> 4) ^ (mixed << 3)
  }

  /** One step of the update: fold byte `b` into register `crc`. */
  function CrcUpdate(crc: bv16, b: byte): bv16
  {
    Mix(crc, Bits(b))
  }

  /** The register after the whole buffer: the seed with every byte folded in, first byte first. */
  function Register(s: seq<byte>): bv16
  {
    if s == [] then Seed else CrcUpdate(Register(s[..|s| - 1]), s[|s| - 1])
  }

  /** The CRC of a buffer as the integer `_calc_crc` returns. */
  function Crc(s: seq<byte>): (r: nat)
    ensures r < 0x10000
  {
    ValueBound(Register(s), 16);
    assert Pow2(16) == 0x10000 by { assert Pow2(8) == 0x100 by { assert Pow2(4) == 0x10; } }
    Value(Register(s), 16)
  }

  /** Python's update before its `& 0xffff`, on integers wide enough to hold every intermediate value. */
  function WideMix(crc: bv32, x: bv32): bv32
  {
    var data := x ^ (crc & 0xFF);
    var mixed := data ^ ((data & 0x0F) << 4);
    ((mixed << 8) | (crc >> 8)) ^ (mixed >> 4) ^ (mixed << 3)
  }

  /**
   * For a register below 0x10000 and a byte, Python's unmasked update is already
   * below 0x10000 and equals the 16-bit update: the mask inside the loop drops nothing.
   */
  lemma MaskDropsNothing(crc: bv16, b: byte)
    ensures WideMix(crc as bv32, Bits(b) as bv32) <= 0xFFFF
    ensures WideMix(crc as bv32, Bits(b) as bv32) == CrcUpdate(crc, b) as bv32
  {
    assert Pow2(8) == 256 by { assert Pow2(4) == 16; }
    BitsFit(b, 8);
    WideAgrees(crc, Bits(b));
  }

  lemma WideAgrees(crc: bv16, x: bv16)
    requires x <= 0xFF
    ensures WideMix(crc as bv32, x as bv32) <= 0xFFFF
    ensures WideMix(crc as bv32, x as bv32) == Mix(crc, x) as bv32
  {
  }

  /** A byte below 2^k has no bit set at or above bit k. */
  lemma {:induction false} BitsFit(b: byte, k: nat)
    requires k <= 8 && b as nat < Pow2(k)
    ensures Bits(b) < (1 as bv16) << k
    decreases b
  {
    if b != 0 {
      BitsFit(b / 2, k - 1);
    }
  }

  /** Folding one more byte onto a buffer extends its register by one update step. */
  lemma RegisterAppend(s: seq<byte>, b: byte)
    ensures Register(s + [b]) == CrcUpdate(Register(s), b)
  {
    assert (s + [b])[..|s|] == s;
  }

  /** The loop of `_calc_crc`: the register after the loop is the register of the buffer. */
  method CalcCrc(buffer: seq<byte>) returns (crc: nat)
    ensures crc == Crc(buffer)
  {
    var register := Seed;
    var i := 0;
    while i < |buffer|
      invariant 0 <= i <= |buffer|
      invariant register == Register(buffer[..i])
    {
      RegisterAppend(buffer[..i], buffer[i]);
      assert buffer[..i] + [buffer[i]] == buffer[..i + 1];
      register := CrcUpdate(register, buffer[i]);
      i := i + 1;
    }
    assert buffer[..i] == buffer;
    crc := Value(register, 16);
  }

  /** Reference values of the algorithm: the empty buffer, one zero byte, and the JSON text `{}`. */
  lemma CrcReferenceValues()
    ensures Register([]) == 0xFFFF
    ensures Register([0x00]) == 0x0F87
    ensures Register([0x7B, 0x7D]) == 0x4CB6
  {
    assert [0x7B as byte, 0x7D][..1] == [0x7B];
    assert [0x00 as byte][..0] == [];
    assert [0x7B as byte][..0] == [];
  }
}
