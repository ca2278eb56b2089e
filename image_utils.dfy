/** stego/image/utils.py: text to bits and back, and the bit helpers of the image codec. */
module ImageUtils {
  import opened Bits
  import Utf8

  /** `text_to_bits`: eight bits per UTF-8 byte of the text, most significant first. */
  function TextToBits(text: string): (bits: seq<Bit>)
    ensures |bits| == 8 * |Utf8.Encode(text)|
    ensures BitsToBytes(bits) == Utf8.Encode(text)
  {
    var bs := Utf8.Encode(text);
    var bits := BytesToBits(bs);
    BitsToBytesOfBytesToBits(bs, []);
    assert bits + [] == bits;
    bits
  }

  /** Bit t of group k is bit t, most significant first, of the k-th UTF-8 byte. */
  lemma TextToBitsAt(text: string, k: nat, t: nat)
    requires k < |Utf8.Encode(text)| && t < 8
    ensures TextToBits(text)[8 * k + t] == ByteBits(Utf8.Encode(text)[k])[t]
  {
    BytesToBitsAt(Utf8.Encode(text), k, t);
  }

  /**
   * `bits_to_text`: whole groups of eight read as bytes, a trailing partial
   * group dropped, and the bytes decoded as UTF-8 with errors ignored.
   */
  function BitsToText(bits: seq<Bit>): string
  {
    Utf8.DecodeIgnore(BitsToBytes(bits))
  }

  /** Only whole bytes count: a trailing partial group never changes the text. */
  lemma PartialGroupIgnored(bits: seq<Bit>)
    ensures BitsToText(bits) == BitsToText(bits[..|bits| / 8 * 8])
  {
    BytesToBitsOfBitsToBytes(bits);
    BitsToBytesOfBytesToBits(BitsToBytes(bits), []);
    assert BytesToBits(BitsToBytes(bits)) + [] == bits[..|bits| / 8 * 8];
  }

  /** text -> bits -> text is the identity, whatever partial group follows. */
  lemma BitsToTextOfTextToBits(text: string, tail: seq<Bit>)
    requires |tail| < 8
    ensures BitsToText(TextToBits(text) + tail) == text
  {
    BitsToBytesOfBytesToBits(Utf8.Encode(text), tail);
    Utf8.DecodeIgnoreOfEncode(text);
  }

  /** `get_lsb(set_lsb(v, b)) == b`, `set_lsb(v, get_lsb(v)) == v`, and setting twice is setting once. */
  lemma LsbLaws(v: int, b: Bit, b': Bit)
    ensures GetLsb(SetLsb(v, b)) == b
    ensures SetLsb(v, GetLsb(v)) == v
    ensures SetLsb(SetLsb(v, b), b') == SetLsb(v, b')
  {
  }
}
