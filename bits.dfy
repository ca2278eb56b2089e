/**
 * Bit strings and bytes, shared by every codec in the model.
 *
 * The programs keep bit strings as text made of the characters '0' and '1';
 * here a bit string is a sequence of the numbers 0 and 1, most significant
 * bit first wherever a byte is spelled out.
 */
module Bits {

  type Bit = b: int | 0 <= b <= 1

  type Byte = b: int | 0 <= b < 256

  function Pow2(w: nat): (p: nat)
    ensures p >= 1
  {
    if w == 0 then 1 else 2 * Pow2(w - 1)
  }

  lemma Pow2Byte()
    ensures Pow2(8) == 256
  {
    assert Pow2(2) == 4;
    assert Pow2(4) == 16;
    assert Pow2(6) == 64;
  }

  function Zeros(n: nat): seq<Bit>
  {
    seq(n, _ => 0)
  }

  /** The w low-order binary digits of n, most significant first (a zero-padded `format(n, '0wb')`). */
  function FixedBits(n: nat, w: nat): (bits: seq<Bit>)
    ensures |bits| == w
  {
    if w == 0 then [] else FixedBits(n / 2, w - 1) + [n % 2]
  }

  /** The number a string of binary digits denotes, most significant first (`int(s, 2)`, `parseInt(s, 2)`). */
  function BitsValue(bits: seq<Bit>): (v: nat)
    ensures v < Pow2(|bits|)
  {
    if bits == [] then 0 else 2 * BitsValue(bits[..|bits| - 1]) + bits[|bits| - 1]
  }

  /** Writing a number in w binary digits and reading them back gives the number. */
  lemma {:induction false} ValueOfFixedBits(n: nat, w: nat)
    requires n < Pow2(w)
    ensures BitsValue(FixedBits(n, w)) == n
  {
    if w > 0 {
      var bits := FixedBits(n, w);
      assert bits[..w - 1] == FixedBits(n / 2, w - 1) && bits[w - 1] == n % 2;
      ValueOfFixedBits(n / 2, w - 1);
      assert BitsValue(bits) == 2 * (n / 2) + n % 2;
    }
  }

  /** Reading a bit string as a number and writing it back in as many digits gives the bit string. */
  lemma {:induction false} FixedBitsOfValue(bits: seq<Bit>)
    ensures FixedBits(BitsValue(bits), |bits|) == bits
  {
    if bits != [] {
      var w := |bits|;
      FixedBitsOfValue(bits[..w - 1]);
      assert bits == bits[..w - 1] + [bits[w - 1]];
    }
  }

  function ByteBits(b: Byte): (bits: seq<Bit>)
    ensures |bits| == 8
  {
    FixedBits(b, 8)
  }

  /** Eight bits per byte, each byte most significant bit first. */
  function BytesToBits(bs: seq<Byte>): (bits: seq<Bit>)
    ensures |bits| == 8 * |bs|
  {
    if bs == [] then [] else ByteBits(bs[0]) + BytesToBits(bs[1..])
  }

  /** Bit t of byte k sits at position 8k + t of the bit string. */
  lemma {:induction false} BytesToBitsAt(bs: seq<Byte>, k: nat, t: nat)
    requires k < |bs| && t < 8
    ensures BytesToBits(bs)[8 * k + t] == ByteBits(bs[k])[t]
  {
    if k > 0 {
      BytesToBitsAt(bs[1..], k - 1, t);
    }
  }

  lemma {:induction false} BytesToBitsAppend(a: seq<Byte>, b: seq<Byte>)
    ensures BytesToBits(a + b) == BytesToBits(a) + BytesToBits(b)
  {
    if a != [] {
      assert (a + b)[0] == a[0] && (a + b)[1..] == a[1..] + b;
      BytesToBitsAppend(a[1..], b);
      assert BytesToBits(a + b) == ByteBits(a[0]) + BytesToBits(a[1..] + b);
      assert BytesToBits(a) == ByteBits(a[0]) + BytesToBits(a[1..]);
    } else {
      assert a + b == b;
    }
  }

  /** Groups of eight bits read as bytes; a trailing group shorter than eight is dropped. */
  function BitsToBytes(bits: seq<Bit>): (bs: seq<Byte>)
    ensures |bs| == |bits| / 8
  {
    if |bits| < 8 then [] else [BitsValue(bits[..8])] + BitsToBytes(bits[8..])
  }

  /** Byte k is the value of bits 8k to 8k + 7. */
  lemma {:induction false} BitsToBytesAt(bits: seq<Bit>, k: nat)
    requires k < |bits| / 8
    ensures BitsToBytes(bits)[k] == BitsValue(bits[8 * k..8 * k + 8])
  {
    if k > 0 {
      BitsToBytesAt(bits[8..], k - 1);
      assert bits[8..][8 * (k - 1)..8 * (k - 1) + 8] == bits[8 * k..8 * k + 8];
    }
  }

  /** bytes -> bits -> bytes is the identity, whatever partial group follows. */
  lemma {:induction false} BitsToBytesOfBytesToBits(bs: seq<Byte>, tail: seq<Bit>)
    requires |tail| < 8
    ensures BitsToBytes(BytesToBits(bs) + tail) == bs
  {
    if bs != [] {
      var bits := BytesToBits(bs) + tail;
      assert bits[..8] == ByteBits(bs[0]);
      assert bits[8..] == BytesToBits(bs[1..]) + tail;
      ValueOfFixedBits(bs[0], 8);
      BitsToBytesOfBytesToBits(bs[1..], tail);
    }
  }

  /** bits -> bytes -> bits keeps every whole group of eight. */
  lemma {:induction false} BytesToBitsOfBitsToBytes(bits: seq<Bit>)
    ensures BytesToBits(BitsToBytes(bits)) == bits[..|bits| / 8 * 8]
  {
    if |bits| >= 8 {
      var rest := bits[8..];
      var n := |rest| / 8 * 8;
      assert |bits| / 8 * 8 == 8 + n;
      var bytes := BitsToBytes(bits);
      assert bytes[0] == BitsValue(bits[..8]) && bytes[1..] == BitsToBytes(rest);
      FixedBitsOfValue(bits[..8]);
      BytesToBitsOfBitsToBytes(rest);
      assert BytesToBits(bytes) == bits[..8] + rest[..n];
      assert bits[..8 + n] == bits[..8] + rest[..n];
    }
  }

  /** `(v & ~1) | b`: the least significant bit replaced by b, the others kept. */
  function SetLsb(v: int, b: Bit): (r: int)
    ensures r % 2 == b && r / 2 == v / 2
    ensures b == v % 2 ==> r == v
    ensures 0 <= v < 256 ==> 0 <= r < 256
  {
    v - v % 2 + b
  }

  /** `v & 1`. */
  function GetLsb(v: int): Bit
  {
    v % 2
  }
}
