/**
 * stego/text/whitespace.py: a secret hidden in the gaps between the words
 * of a cover text, a TAB for a 1 bit and a SPACE for a 0 bit, ended by
 * eight 0 bits.
 */
module Whitespace {
  import opened Wrappers
  import opened Bits
  import opened PyText
  import Utf8
  import ImageUtils
  import TextUtils
  import BitSearch

  const SPACE: char := ' '
  const TAB: char := '\t'

  /** `END_MARKER = "00000000"`. */
  const END_MARKER: seq<Bit> := [0, 0, 0, 0, 0, 0, 0, 0]

  const EMPTY_INPUT := "Cover text and secret must not be empty"
  const TOO_SHORT := "Cover text too short"
  const NOT_FOUND := "No hidden message found"

  /** `text_to_bits(secret) + END_MARKER`. */
  function PayloadBits(secret: string): (bits: seq<Bit>)
    ensures |bits| == 8 * |Utf8.Encode(secret)| + 8
  {
    ImageUtils.TextToBits(secret) + END_MARKER
  }

  /** The separator written after word i: TAB for bit 1, SPACE for bit 0, nothing once the bits are used up. */
  function Separator(i: nat, bits: seq<Bit>): (sep: string)
    ensures |sep| <= 1
  {
    if i < |bits| then [if bits[i] == 1 then TAB else SPACE] else []
  }

  /** `"".join(stego)` after the first |words| rounds of the embedding loop. */
  function Layout(words: seq<string>, bits: seq<Bit>): string
  {
    if words == [] then []
    else Layout(words[..|words| - 1], bits) + words[|words| - 1] + Separator(|words| - 1, bits)
  }

  predicate NoCarrier(w: string)
  {
    forall j :: 0 <= j < |w| ==> w[j] != SPACE && w[j] != TAB
  }

  function Min(a: nat, b: nat): nat
  {
    if a <= b then a else b
  }

  lemma LayoutStep(words: seq<string>, i: nat, bits: seq<Bit>)
    requires i < |words|
    ensures Layout(words[..i + 1], bits) == Layout(words[..i], bits) + words[i] + Separator(i, bits)
  {
    assert words[..i + 1][..i] == words[..i];
  }

  lemma {:induction false} NoCarrierBits(w: string)
    requires NoCarrier(w)
    ensures BitSearch.CarrierBits(w, SPACE, TAB) == []
  {
    if w != [] {
      NoCarrierBits(w[..|w| - 1]);
    }
  }

  /** The separator after word i carries bit i, or nothing past the last bit. */
  lemma SeparatorBits(i: nat, bits: seq<Bit>)
    ensures BitSearch.CarrierBits(Separator(i, bits), SPACE, TAB) == bits[Min(i, |bits|)..Min(i + 1, |bits|)]
  {
    var sep := Separator(i, bits);
    if i < |bits| {
      assert sep[..0] == [];
    }
  }

  /** One more word and its separator add the separator's bit. */
  lemma {:induction false} LayoutCarriesStep(front: string, w: string, i: nat, bits: seq<Bit>)
    requires NoCarrier(w)
    ensures BitSearch.CarrierBits(front + w + Separator(i, bits), SPACE, TAB)
         == BitSearch.CarrierBits(front, SPACE, TAB) + bits[Min(i, |bits|)..Min(i + 1, |bits|)]
  {
    NoCarrierBits(w);
    SeparatorBits(i, bits);
    BitSearch.CarrierBitsAppend(front + w, Separator(i, bits), SPACE, TAB);
    BitSearch.CarrierBitsAppend(front, w, SPACE, TAB);
    assert BitSearch.CarrierBits(front, SPACE, TAB) + [] == BitSearch.CarrierBits(front, SPACE, TAB);
  }

  /**
   * Words without SPACE or TAB leave the separators alone to carry bits:
   * the text spells the first |words| bits.
   */
  lemma {:induction false} LayoutCarries(words: seq<string>, bits: seq<Bit>)
    requires forall i :: 0 <= i < |words| ==> NoCarrier(words[i])
    ensures BitSearch.CarrierBits(Layout(words, bits), SPACE, TAB) == bits[..Min(|words|, |bits|)]
  {
    if words != [] {
      var n := |words| - 1;
      var front := words[..n];
      forall i | 0 <= i < |front| ensures NoCarrier(front[i]) {
        assert front[i] == words[i];
      }
      assert Layout(words, bits) == Layout(front, bits) + words[n] + Separator(n, bits);
      LayoutCarries(front, bits);
      LayoutCarriesStep(Layout(front, bits), words[n], n, bits);
      CarriesJoin(BitSearch.CarrierBits(Layout(words, bits), SPACE, TAB),
                  BitSearch.CarrierBits(Layout(front, bits), SPACE, TAB), bits, n);
    }
  }

  /** The bits carried before word n and those of its separator make up the first n + 1 bits. */
  lemma CarriesJoin(total: seq<Bit>, before: seq<Bit>, bits: seq<Bit>, n: nat)
    requires before == bits[..Min(n, |bits|)]
    requires total == before + bits[Min(n, |bits|)..Min(n + 1, |bits|)]
    ensures total == bits[..Min(n + 1, |bits|)]
  {
    assert bits[..Min(n, |bits|)] + bits[Min(n, |bits|)..Min(n + 1, |bits|)] == bits[..Min(n + 1, |bits|)];
  }

  /** The words of `split()` hold no whitespace, so a cover with enough words carries exactly the bits. */
  lemma EmbeddedCarries(cover: string, bits: seq<Bit>)
    requires |Split(cover)| >= |bits|
    ensures BitSearch.CarrierBits(Layout(Split(cover), bits), SPACE, TAB) == bits
  {
    var words := Split(cover);
    forall i | 0 <= i < |words| ensures NoCarrier(words[i]) {
      forall j | 0 <= j < |words[i]| ensures words[i][j] != SPACE && words[i][j] != TAB {
        assert !IsSpace(words[i][j]);
      }
    }
    LayoutCarries(words, bits);
    assert bits[..|bits|] == bits;
  }

  /**
   * `embed_whitespace`: refuses an empty cover or secret and a cover with
   * fewer than one word per payload bit plus one; otherwise the words of
   * the cover in order, each of the first |bits| followed by its bit's
   * separator, and the rest run together.
   */
  method Embed(cover: string, secret: string) returns (r: Result<string, PyError>)
    ensures cover == [] || secret == [] ==> r == Err(ValueError(EMPTY_INPUT))
    ensures cover != [] && secret != [] && |Split(cover)| < |PayloadBits(secret)| + 1 ==>
      r == Err(ValueError(TOO_SHORT))
    ensures cover != [] && secret != [] && |Split(cover)| >= |PayloadBits(secret)| + 1 ==>
      r == Ok(Layout(Split(cover), PayloadBits(secret)))
  {
    if cover == [] || secret == [] {
      return Err(ValueError(EMPTY_INPUT));
    }
    var bits := PayloadBits(secret);
    var words := Split(cover);
    if |words| < |bits| + 1 {
      return Err(ValueError(TOO_SHORT));
    }
    var stego := JoinLayout(words, bits);
    r := Ok(stego);
  }

  /** The embedding loop: each word in turn, followed by its separator while bits remain. */
  method JoinLayout(words: seq<string>, bits: seq<Bit>) returns (stego: string)
    ensures stego == Layout(words, bits)
  {
    stego := [];
    var i := 0;
    while i < |words|
      invariant 0 <= i <= |words|
      invariant stego == Layout(words[..i], bits)
    {
      LayoutStep(words, i, bits);
      stego := stego + words[i];
      if i < |bits| {
        stego := stego + [if bits[i] == 1 then TAB else SPACE];
      }
      i := i + 1;
    }
    assert words[..i] == words;
  }

  /** What the extraction makes of the bits it reads: the text in front of the first eight zeros in a row. */
  function DecodeStream(bits: seq<Bit>): Result<string, PyError>
  {
    match BitSearch.BeforeFirst(bits, END_MARKER)
    case Some(before) => TextUtils.BitsToText(before)
    case None => Err(ValueError(NOT_FOUND))
  }

  /** `extract_whitespace` on a text. */
  function ExtractSpec(text: string): Result<string, PyError>
  {
    DecodeStream(BitSearch.CarrierBits(text, SPACE, TAB))
  }

  /** `extract_whitespace`: SPACE reads 0, TAB reads 1, the rest is skipped, and the scan stops at eight zeros. */
  method Extract(text: string) returns (r: Result<string, PyError>)
    ensures r == ExtractSpec(text)
  {
    var found := BitSearch.ScanCarriers(text, SPACE, TAB, END_MARKER);
    match found
    case Some(bits) =>
      r := TextUtils.BitsToText(bits);
    case None =>
      r := Err(ValueError(NOT_FOUND));
  }

  /** No eight zeros in a row end anywhere inside the bits. */
  predicate NoZeroRun(bits: seq<Bit>)
  {
    forall j :: 0 <= j <= |bits| ==> !BitSearch.EndsAt(bits, END_MARKER, j)
  }

  /**
   * The scan over `bits + END_MARKER` stops right after the marker that was
   * written exactly when the bits end with a 1 and hold no run of eight
   * zeros; otherwise it stops earlier.
   */
  lemma StopsAfterPayload(bits: seq<Bit>)
    requires bits != []
    ensures BitSearch.FirstEnd(bits + END_MARKER, END_MARKER) == Some(|bits| + 8)
        <==> bits[|bits| - 1] == 1 && NoZeroRun(bits)
  {
    if bits[|bits| - 1] == 1 && NoZeroRun(bits) {
      StopsWhenClean(bits);
    }
    if BitSearch.FirstEnd(bits + END_MARKER, END_MARKER) == Some(|bits| + 8) {
      CleanWhenStops(bits);
    }
  }

  /** Bits ending in 1 with no run of eight zeros let the scan reach the marker written after them. */
  lemma StopsWhenClean(bits: seq<Bit>)
    requires bits != [] && bits[|bits| - 1] == 1 && NoZeroRun(bits)
    ensures BitSearch.FirstEnd(bits + END_MARKER, END_MARKER) == Some(|bits| + 8)
  {
    var p := bits + END_MARKER;
    var n := |bits|;
    forall j | 0 <= j < n + 8 ensures !BitSearch.EndsAt(p, END_MARKER, j) {
      if j <= n {
        assert !BitSearch.EndsAt(bits, END_MARKER, j);
        if 8 <= j {
          assert p[j - 8..j] == bits[j - 8..j];
        }
      } else if 8 <= j {
        assert p[n - 1] == 1;
        BitSearch.Mismatch(p, END_MARKER, j - 8, n - 1 - (j - 8));
      }
    }
    assert p[n..n + 8] == END_MARKER;
    BitSearch.FirstEndIs(p, END_MARKER, n + 8);
  }

  /** A scan that reaches the marker written after the bits saw no run of eight zeros and a last bit 1. */
  lemma CleanWhenStops(bits: seq<Bit>)
    requires bits != [] && BitSearch.FirstEnd(bits + END_MARKER, END_MARKER) == Some(|bits| + 8)
    ensures bits[|bits| - 1] == 1 && NoZeroRun(bits)
  {
    var p := bits + END_MARKER;
    var n := |bits|;
    BitSearch.FirstEndSpec(p, END_MARKER);
    forall j | 0 <= j <= n ensures !BitSearch.EndsAt(bits, END_MARKER, j) {
      assert !BitSearch.EndsAt(p, END_MARKER, j);
      if 8 <= j {
        assert p[j - 8..j] == bits[j - 8..j];
      }
    }
    LastBitOne(bits);
  }

  /** With no marker ending one bit before the written one, the text's last bit is a 1. */
  lemma LastBitOne(bits: seq<Bit>)
    requires bits != []
    requires !BitSearch.EndsAt(bits + END_MARKER, END_MARKER, |bits| + 7)
    ensures bits[|bits| - 1] == 1
  {
    var n := |bits|;
    var w := (bits + END_MARKER)[n - 1..n + 7];
    assert w == [bits[n - 1]] + END_MARKER[1..];
    assert END_MARKER == [0] + END_MARKER[1..];
  }

  /**
   * `extract_whitespace(embed_whitespace(cover, secret)) == secret` holds
   * exactly when the secret's bits end with a 1 and hold no run of eight
   * zeros.
   */
  lemma RoundTripIff(cover: string, secret: string)
    requires cover != [] && secret != [] && |Split(cover)| >= |PayloadBits(secret)| + 1
    ensures var t := ImageUtils.TextToBits(secret);
      (ExtractSpec(Layout(Split(cover), PayloadBits(secret))) == Ok(secret)
       <==> t[|t| - 1] == 1 && NoZeroRun(t))
  {
    EmbeddedCarries(cover, PayloadBits(secret));
    PayloadRoundTripIff(secret);
  }

  lemma PayloadRoundTripIff(secret: string)
    requires secret != []
    ensures var t := ImageUtils.TextToBits(secret);
      (DecodeStream(PayloadBits(secret)) == Ok(secret)
       <==> t[|t| - 1] == 1 && NoZeroRun(t))
  {
    DecodePayloadIff(secret);
    StopsAfterPayload(ImageUtils.TextToBits(secret));
  }

  /** Decoding the payload's bits gives the secret exactly when the scan stops after the marker written. */
  lemma DecodePayloadIff(secret: string)
    requires secret != []
    ensures DecodeStream(PayloadBits(secret)) == Ok(secret)
        <==> BitSearch.FirstEnd(PayloadBits(secret), END_MARKER) == Some(|ImageUtils.TextToBits(secret)| + 8)
  {
    var t := ImageUtils.TextToBits(secret);
    var p := PayloadBits(secret);
    TextUtils.RoundTrip(secret);
    match BitSearch.FirstEnd(p, END_MARKER)
    case None =>
    case Some(m) =>
      var before := p[..m - 8];
      if TextUtils.BitsToText(before) == Ok(secret) {
        TextUtils.BitsDetermineText(before, secret);
        assert |before| == |t|;
      }
      if m == |t| + 8 {
        assert before == t;
      }
  }

  lemma BitsOfB()
    ensures ImageUtils.TextToBits("b") == [0, 1, 1, 0, 0, 0, 1, 0]
  {
    var s := "b";
    assert s[1..] == [];
    assert Utf8.EncodeChar(s[0]) == [0x62];
    assert Utf8.Encode(s) == [0x62] + Utf8.Encode([]);
    assert FixedBits(1, 2) == [0, 1];
    assert FixedBits(6, 4) == FixedBits(3, 3) + [0] == [0, 1, 1, 0];
    assert FixedBits(24, 6) == FixedBits(12, 5) + [0] == [0, 1, 1, 0, 0, 0];
    assert FixedBits(98, 8) == FixedBits(49, 7) + [0] == [0, 1, 1, 0, 0, 0, 1, 0];
    assert BytesToBits([0x62]) == ByteBits(0x62) + BytesToBits([]);
  }

  /** In 01100010 followed by eight zeros, the first eight zeros in a row end at bit 15, not 16. */
  lemma StopsEarlyOnB()
    ensures BitSearch.FirstEnd([0, 1, 1, 0, 0, 0, 1, 0] + END_MARKER, END_MARKER) == Some(15)
  {
    var p: seq<Bit> := [0, 1, 1, 0, 0, 0, 1, 0] + END_MARKER;
    forall j | 0 <= j < 15 ensures !BitSearch.EndsAt(p, END_MARKER, j) {
      if 8 <= j {
        BitSearch.Mismatch(p, END_MARKER, j - 8, 6 - (j - 8));
      }
    }
    assert p[7..15] == END_MARKER;
    BitSearch.FirstEndIs(p, END_MARKER, 15);
  }

  /**
   * The secret "b" (byte 0x62, bits 01100010) does not come back: its last
   * bit is 0, so the bits read end in eight zeros one bit before the
   * marker written, and seven bits are left to decode.
   */
  lemma EvenLastByteFails(cover: string)
    requires |Split(cover)| >= 17
    ensures |PayloadBits("b")| == 16
    ensures ExtractSpec(Layout(Split(cover), PayloadBits("b"))) == Err(ValueError(TextUtils.NOT_ALIGNED))
  {
    BitsOfB();
    StopsEarlyOnB();
    var p := PayloadBits("b");
    EmbeddedCarries(cover, p);
    assert |p[..7]| == 7;
  }

  /** The index of the first zero byte, if any. */
  function FirstZeroByte(bs: seq<Byte>): (r: Option<nat>)
    ensures r.Some? ==> r.value < |bs| && bs[r.value] == 0
    ensures r.Some? ==> forall k :: 0 <= k < r.value ==> bs[k] != 0
    ensures r.None? ==> forall k :: 0 <= k < |bs| ==> bs[k] != 0
  {
    if bs == [] then None
    else if bs[0] == 0 then Some(0)
    else match FirstZeroByte(bs[1..])
      case Some(k) => Some(k + 1)
      case None => None
  }

  /**
   * Extraction that stops only at eight zeros on a byte boundary, that is
   * at the first zero byte: the terminator the embedding writes is a whole
   * byte after whole bytes.
   */
  function ExtractAligned(text: string): Result<string, PyError>
  {
    var bits := BitSearch.CarrierBits(text, SPACE, TAB);
    match FirstZeroByte(BitsToBytes(bits))
    case Some(k) => TextUtils.BitsToText(bits[..8 * k])
    case None => Err(ValueError(NOT_FOUND))
  }

  /** The payload is the secret's UTF-8 bytes and then one zero byte. */
  lemma PayloadBytes(secret: string)
    ensures BitsToBytes(PayloadBits(secret)) == Utf8.Encode(secret) + [0]
  {
    var bs := Utf8.Encode(secret);
    BytesToBitsAppend(bs, [0]);
    assert BytesToBits([0]) == ByteBits(0) + BytesToBits([]);
    assert ByteBits(0) == END_MARKER;
    BitsToBytesOfBytesToBits(bs + [0], []);
    assert BytesToBits(bs + [0]) + [] == PayloadBits(secret);
  }

  /** Text without NUL encodes to bytes without zero, so the first zero byte is the terminator. */
  lemma TerminatorFirstZero(secret: string)
    requires forall i :: 0 <= i < |secret| ==> secret[i] != '\0'
    ensures FirstZeroByte(Utf8.Encode(secret) + [0]) == Some(|Utf8.Encode(secret)|)
  {
    var bs := Utf8.Encode(secret) + [0];
    assert bs[|bs| - 1] == 0;
    assert forall k :: 0 <= k < |bs| - 1 ==> bs[k] == Utf8.Encode(secret)[k];
  }

  /** With the aligned stop, every secret without a NUL character comes back. */
  lemma AlignedRoundTrip(cover: string, secret: string)
    requires cover != [] && secret != [] && |Split(cover)| >= |PayloadBits(secret)| + 1
    requires forall i :: 0 <= i < |secret| ==> secret[i] != '\0'
    ensures ExtractAligned(Layout(Split(cover), PayloadBits(secret))) == Ok(secret)
  {
    var p := PayloadBits(secret);
    var n := |Utf8.Encode(secret)|;
    EmbeddedCarries(cover, p);
    PayloadBytes(secret);
    TerminatorFirstZero(secret);
    assert p[..8 * n] == ImageUtils.TextToBits(secret);
    TextUtils.RoundTrip(secret);
  }
}
