/** stego/text/utils.py: the strict text/bit conversions of the text codecs. */
module TextUtils {
  import opened Wrappers
  import opened Bits
  import opened PyText
  import Utf8
  import ImageUtils

  const NOT_A_STRING := "Input text must be a string"
  const NO_BITS := "No bits provided for decoding"
  const NOT_ALIGNED := "Bit stream length is not byte-aligned"
  const NOT_UTF8 := "Decoded data is not valid UTF-8"

  /** `text_to_bits`: a non-str argument is refused, a str gives eight bits per UTF-8 byte. */
  function TextToBits(v: PyValue): (r: Result<seq<Bit>, PyError>)
    ensures !v.PyStr? ==> r == Err(ValueError(NOT_A_STRING))
    ensures v.PyStr? ==> r.Ok? && |r.value| == 8 * |Utf8.Encode(v.s)|
    ensures v.PyStr? ==> BitsToBytes(r.value) == Utf8.Encode(v.s)
  {
    if !v.PyStr? then Err(ValueError(NOT_A_STRING))
    else Ok(ImageUtils.TextToBits(v.s))
  }

  /**
   * `bits_to_text`: refuses an empty bit string, a length that is not a
   * multiple of eight, and bytes that are not well-formed UTF-8; what it
   * returns is text whose encoding is exactly the bytes given.
   */
  function BitsToText(bits: seq<Bit>): (r: Result<string, PyError>)
    ensures bits == [] ==> r == Err(ValueError(NO_BITS))
    ensures bits != [] && |bits| % 8 != 0 ==> r == Err(ValueError(NOT_ALIGNED))
    ensures bits != [] && |bits| % 8 == 0 && Utf8.DecodeStrict(BitsToBytes(bits)).None? ==>
      r == Err(ValueError(NOT_UTF8))
    ensures r.Ok? ==> bits != [] && |bits| % 8 == 0 && Utf8.Encode(r.value) == BitsToBytes(bits)
  {
    if bits == [] then Err(ValueError(NO_BITS))
    else if |bits| % 8 != 0 then Err(ValueError(NOT_ALIGNED))
    else match Utf8.DecodeStrict(BitsToBytes(bits))
      case None => Err(ValueError(NOT_UTF8))
      case Some(text) =>
        Utf8.EncodeOfDecodeStrict(BitsToBytes(bits));
        Ok(text)
  }

  /** Any non-empty text survives the round trip through bits. */
  lemma RoundTrip(text: string)
    requires text != []
    ensures BitsToText(TextToBits(PyStr(text)).value) == Ok(text)
  {
    var bs := Utf8.Encode(text);
    BitsToBytesOfBytesToBits(bs, []);
    assert BytesToBits(bs) + [] == BytesToBits(bs);
    Utf8.DecodeStrictOfEncode(text);
  }

  /** Two texts with the same bits are the same text: decoding accepts a bit string for at most one text. */
  lemma BitsDetermineText(bits: seq<Bit>, text: string)
    requires BitsToText(bits) == Ok(text)
    ensures bits == TextToBits(PyStr(text)).value
  {
    BytesToBitsOfBitsToBytes(bits);
  }
}
