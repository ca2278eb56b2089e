/**
 * stego/text/zerowidth.py: a secret appended to a cover text as invisible
 * characters, ZERO WIDTH SPACE (U+200B) for a 0 bit and ZERO WIDTH
 * NON-JOINER (U+200C) for a 1 bit, ended by the marker 1111111111111110.
 */
module Zerowidth {
  import opened Wrappers
  import opened Bits
  import opened PyText
  import Utf8
  import ImageUtils
  import TextUtils
  import BitSearch

  const ZW_SPACE: char := '\U{200B}'
  const ZW_NONJOIN: char := '\U{200C}'

  const EMPTY_INPUT := "Cover text and secret must not be empty"
  const NOT_FOUND := "No hidden message found"

  /** One invisible character per bit. */
  function Spell(bits: seq<Bit>): (t: string)
    ensures |t| == |bits|
    ensures forall i :: 0 <= i < |t| ==> t[i] == if bits[i] == 0 then ZW_SPACE else ZW_NONJOIN
  {
    seq(|bits|, i requires 0 <= i < |bits| => if bits[i] == 0 then ZW_SPACE else ZW_NONJOIN)
  }

  /** Reading the invisible characters back gives the bits they spell. */
  lemma {:induction false} SpellCarries(bits: seq<Bit>)
    ensures BitSearch.CarrierBits(Spell(bits), ZW_SPACE, ZW_NONJOIN) == bits
  {
    if bits != [] {
      var n := |bits| - 1;
      var t := Spell(bits);
      assert t[..n] == Spell(bits[..n]);
      SpellCarries(bits[..n]);
      assert bits == bits[..n] + [bits[n]];
    }
  }

  /**
   * `embed_zerowidth`: refuses an empty cover or secret; otherwise the cover
   * unchanged followed by one invisible character per bit of the secret's
   * UTF-8 bits and the marker.
   */
  function Embed(cover: string, secret: string): (r: Result<string, PyError>)
    ensures cover == [] || secret == [] ==> r == Err(ValueError(EMPTY_INPUT))
    ensures cover != [] && secret != [] ==> r.Ok?
    ensures r.Ok? ==> |r.value| == |cover| + 8 * |Utf8.Encode(secret)| + 16
    ensures r.Ok? ==> r.value[..|cover|] == cover
  {
    if cover == [] || secret == [] then Err(ValueError(EMPTY_INPUT))
    else Ok(cover + Spell(BitSearch.MarkedBits(secret)))
  }

  /** `extract_zerowidth` on a text: decode what precedes the first marker among the invisible characters. */
  function ExtractSpec(text: string): Result<string, PyError>
  {
    match BitSearch.BeforeFirst(BitSearch.CarrierBits(text, ZW_SPACE, ZW_NONJOIN), BitSearch.HIGH_MARKER)
    case Some(bits) => TextUtils.BitsToText(bits)
    case None => Err(ValueError(NOT_FOUND))
  }

  /** `extract_zerowidth`: U+200B reads 0, U+200C reads 1, the rest is skipped, and the scan stops at the marker. */
  method Extract(text: string) returns (r: Result<string, PyError>)
    ensures r == ExtractSpec(text)
  {
    var found := BitSearch.ScanCarriers(text, ZW_SPACE, ZW_NONJOIN, BitSearch.HIGH_MARKER);
    match found
    case Some(bits) =>
      r := TextUtils.BitsToText(bits);
    case None =>
      r := Err(ValueError(NOT_FOUND));
  }

  /** A text without U+200B and U+200C carries no bits. */
  lemma {:induction false} PlainCarriesNothing(t: string)
    requires forall i :: 0 <= i < |t| ==> t[i] != ZW_SPACE && t[i] != ZW_NONJOIN
    ensures BitSearch.CarrierBits(t, ZW_SPACE, ZW_NONJOIN) == []
  {
    if t != [] {
      PlainCarriesNothing(t[..|t| - 1]);
    }
  }

  /** The bits read from an embedded text are exactly the marked secret. */
  lemma EmbeddedCarries(cover: string, secret: string)
    requires cover != [] && secret != []
    requires forall i :: 0 <= i < |cover| ==> cover[i] != ZW_SPACE && cover[i] != ZW_NONJOIN
    ensures BitSearch.CarrierBits(Embed(cover, secret).value, ZW_SPACE, ZW_NONJOIN) == BitSearch.MarkedBits(secret)
  {
    var bits := BitSearch.MarkedBits(secret);
    BitSearch.CarrierBitsAppend(cover, Spell(bits), ZW_SPACE, ZW_NONJOIN);
    PlainCarriesNothing(cover);
    SpellCarries(bits);
    assert [] + bits == bits;
  }

  /** With a cover free of the two invisible characters, extraction after embedding gives the secret back. */
  lemma RoundTrip(cover: string, secret: string)
    requires cover != [] && secret != []
    requires forall i :: 0 <= i < |cover| ==> cover[i] != ZW_SPACE && cover[i] != ZW_NONJOIN
    ensures ExtractSpec(Embed(cover, secret).value) == Ok(secret)
  {
    EmbeddedCarries(cover, secret);
    BitSearch.BeforeMarkedBits(secret, []);
    assert BitSearch.MarkedBits(secret) + [] == BitSearch.MarkedBits(secret);
    TextUtils.RoundTrip(secret);
  }
}
