/**
 * steganalysis/lsb_extraction.py: the raw payload an analyst reads out of
 * an image, the least significant bits of its flattened samples packed
 * eight to a byte, most significant first, up to a byte limit.
 */
module LsbExtraction {
  import opened Bits

  /** `max_bytes`'s default. */
  const DEFAULT_MAX_BYTES := 5000

  /** `flat & 1`: the LSB of every sample, in order. */
  function LsbBits(flat: seq<int>): (bits: seq<Bit>)
    ensures |bits| == |flat|
    ensures forall i :: 0 <= i < |flat| ==> bits[i] == GetLsb(flat[i])
  {
    seq(|flat|, i requires 0 <= i < |flat| => GetLsb(flat[i]))
  }

  /**
   * How many bytes come out of n samples: every whole group of eight, but
   * no more than `max_bytes`, and at least one whenever there is a whole
   * group, since the limit is checked only after a byte is appended.
   */
  function ByteCount(n: nat, maxBytes: int): nat
  {
    var limit := if maxBytes >= 1 then maxBytes else 1;
    if n / 8 <= limit then n / 8 else limit
  }

  /** What `extract_lsb_payload` returns: byte k packs the LSBs of samples 8k to 8k + 7. */
  function PayloadSpec(flat: seq<int>, maxBytes: int): (out: seq<Byte>)
    ensures |out| == ByteCount(|flat|, maxBytes) <= |flat| / 8
    ensures forall k :: 0 <= k < |out| ==> out[k] == BitsValue(LsbBits(flat)[8 * k..8 * k + 8])
  {
    var bits := LsbBits(flat);
    var bytes := BitsToBytes(bits);
    forall k | 0 <= k < |bytes| ensures bytes[k] == BitsValue(bits[8 * k..8 * k + 8]) {
      BitsToBytesAt(bits, k);
    }
    bytes[..ByteCount(|flat|, maxBytes)]
  }

  /** The inner loop: `byte = (byte << 1) | bit` over eight bits. */
  method PackByte(bits: seq<Bit>, i: nat) returns (byte: Byte)
    requires i + 8 <= |bits|
    ensures byte == BitsValue(bits[i..i + 8])
  {
    var acc: nat := 0;
    var j := 0;
    while j < 8
      invariant 0 <= j <= 8
      invariant acc == BitsValue(bits[i..i + j])
    {
      assert bits[i..i + j + 1][..j] == bits[i..i + j];
      acc := 2 * acc + bits[i + j];
      j := j + 1;
    }
    Pow2Byte();
    return acc;
  }

  /** `extract_lsb_payload`: whole groups of eight LSBs packed into bytes until the samples or the limit run out. */
  method ExtractPayload(flat: seq<int>, maxBytes: int) returns (out: seq<Byte>)
    ensures out == PayloadSpec(flat, maxBytes)
  {
    var bits := LsbBits(flat);
    ghost var all := BitsToBytes(bits);
    var bytes: seq<Byte> := [];
    var i := 0;
    while i < |bits|
      invariant i == 8 * |bytes| <= |bits|
      invariant bytes == all[..|bytes|]
      invariant bytes == [] || |bytes| < maxBytes
    {
      if |bits| - i < 8 {
        break;
      }
      var byte := PackByte(bits, i);
      BitsToBytesAt(bits, |bytes|);
      assert all[..|bytes| + 1] == all[..|bytes|] + [byte];
      bytes := bytes + [byte];
      if |bytes| >= maxBytes {
        return bytes;
      }
      i := i + 8;
    }
    return bytes;
  }

  /** Only the least significant bit of each sample matters. */
  lemma OnlyLsbMatters(flat: seq<int>, flat': seq<int>, maxBytes: int)
    requires |flat| == |flat'| && forall i :: 0 <= i < |flat| ==> GetLsb(flat[i]) == GetLsb(flat'[i])
    ensures PayloadSpec(flat, maxBytes) == PayloadSpec(flat', maxBytes)
  {
    assert LsbBits(flat) == LsbBits(flat');
  }

  /** A trailing group of fewer than eight samples is dropped. */
  lemma PartialGroupDropped(flat: seq<int>, tail: seq<int>, maxBytes: int)
    requires |flat| % 8 == 0 && |tail| < 8
    ensures PayloadSpec(flat + tail, maxBytes) == PayloadSpec(flat, maxBytes)
  {
    var a, b := PayloadSpec(flat + tail, maxBytes), PayloadSpec(flat, maxBytes);
    assert |flat + tail| / 8 == |flat| / 8;
    forall k | 0 <= k < |a| ensures a[k] == b[k] {
      assert LsbBits(flat + tail)[8 * k..8 * k + 8] == LsbBits(flat)[8 * k..8 * k + 8];
    }
  }

  /** A limit of zero or below still lets one byte out when there are eight samples. */
  lemma NonPositiveLimit(flat: seq<int>, maxBytes: int)
    requires maxBytes <= 0 && |flat| >= 8
    ensures |PayloadSpec(flat, maxBytes)| == 1
  {
  }
}
