/**
 * WatermarkEngine (watermarkEngine.js): the two entry points of the
 * frontend watermarking code. Each checks that an image was given, then
 * switches on the watermark type, checks what that type needs from the
 * options and hands the call to one strategy. The result here is the
 * strategy call the engine makes, or the message of the error it throws
 * instead; what the LSB strategy then does is LsbWatermark.
 */
module WatermarkEngine {
  import opened Wrappers
  import opened Prng
  import opened Bits
  import LsbWatermark

  const NO_IMAGE := "No image data provided."
  const VISIBLE_TEXT_REQUIRED := "Watermark text is required for visible watermarking."
  const LSB_KEY_REQUIRED := "Secret Key is required for LSB watermarking."
  const LSB_EXTRACT_KEY_REQUIRED := "Secret Key is required for LSB extraction."

  const VISIBLE := "visible"
  const INVISIBLE_LSB := "invisible_lsb"
  const INVISIBLE_DCT := "invisible_dct"
  const INVISIBLE_DWT := "invisible_dwt"

  /** The types both switches know. */
  const TYPES: set<string> := {VISIBLE, INVISIBLE_LSB, INVISIBLE_DCT, INVISIBLE_DWT}

  /** "VISIBLE_DEFAULT_KEY" as code units: the key the visible mark is embedded and recovered with. */
  const VISIBLE_DEFAULT_KEY: seq<CodeUnit> :=
    [86, 73, 83, 73, 66, 76, 69, 95, 68, 69, 70, 65, 85, 76, 84, 95, 75, 69, 89]

  /** The option fields the engine and the strategies read; an absent field is None. */
  datatype Options = Options(text: Option<seq<CodeUnit>>, secretKey: Option<seq<CodeUnit>>)

  /** A JavaScript string option is truthy when it is present and not empty. */
  predicate Truthy(v: Option<seq<CodeUnit>>)
  {
    v.Some? && v.value != []
  }

  /** The strategy call the engine makes, with the arguments it passes. */
  datatype Call =
    | EmbedVisible(text: seq<CodeUnit>, options: Options)
    | EmbedLsb(options: Options)
    | EmbedDct(options: Options)
    | EmbedDwt(options: Options)
    | ExtractLsb(options: Options)
    | ExtractDct(options: Options)
    | ExtractDwt(options: Options)

  /** The key an LSB call hands to the generator: the secretKey option, absent read as empty. */
  function KeyOf(options: Options): (key: seq<CodeUnit>)
    ensures Truthy(options.secretKey) <==> key != []
  {
    if options.secretKey.Some? then options.secretKey.value else []
  }

  /**
   * `applyWatermark`: no image is refused before the type is looked at;
   * a visible mark needs text and an LSB mark a key; DCT and DWT are
   * passed on unchecked; an unknown type is refused.
   */
  function Apply<I>(kind: string, image: Option<I>, options: Options): (r: Result<Call, string>)
    ensures image.None? ==> r == Err(NO_IMAGE)
    ensures image.Some? && kind !in TYPES ==> r == Err("Unknown watermark type: " + kind)
    ensures r.Ok? <==> image.Some? && kind in TYPES
                       && (kind == VISIBLE ==> Truthy(options.text))
                       && (kind == INVISIBLE_LSB ==> Truthy(options.secretKey))
    ensures r.Ok? && r.value.EmbedLsb? ==> kind == INVISIBLE_LSB && KeyOf(r.value.options) != []
  {
    if image.None? then Err(NO_IMAGE)
    else if kind == VISIBLE then
      if !Truthy(options.text) then Err(VISIBLE_TEXT_REQUIRED)
      else Ok(EmbedVisible(options.text.value, options))
    else if kind == INVISIBLE_LSB then
      if !Truthy(options.secretKey) then Err(LSB_KEY_REQUIRED)
      else Ok(EmbedLsb(options))
    else if kind == INVISIBLE_DCT then Ok(EmbedDct(options))
    else if kind == INVISIBLE_DWT then Ok(EmbedDwt(options))
    else Err("Unknown watermark type: " + kind)
  }

  /**
   * `recoverWatermark`: no image is refused first; a visible mark is read
   * by the LSB extractor with the fixed visible key whatever the options;
   * an LSB mark needs a key; DCT and DWT are passed on unchecked; an
   * unknown type is refused.
   */
  function Recover<I>(kind: string, image: Option<I>, options: Options): (r: Result<Call, string>)
    ensures image.None? ==> r == Err(NO_IMAGE)
    ensures image.Some? && kind !in TYPES ==> r == Err("Recovery not supported for type: " + kind)
    ensures r.Ok? <==> image.Some? && kind in TYPES && (kind == INVISIBLE_LSB ==> Truthy(options.secretKey))
    ensures r.Ok? && r.value.ExtractLsb? ==> KeyOf(r.value.options) != []
  {
    if image.None? then Err(NO_IMAGE)
    else if kind == VISIBLE then Ok(ExtractLsb(Options(None, Some(VISIBLE_DEFAULT_KEY))))
    else if kind == INVISIBLE_LSB then
      if !Truthy(options.secretKey) then Err(LSB_EXTRACT_KEY_REQUIRED)
      else Ok(ExtractLsb(options))
    else if kind == INVISIBLE_DCT then Ok(ExtractDct(options))
    else if kind == INVISIBLE_DWT then Ok(ExtractDwt(options))
    else Err("Recovery not supported for type: " + kind)
  }

  /** Each type goes to its own strategy, on both paths, with the options handed through. */
  lemma Routing<I>(image: I, options: Options)
    ensures Truthy(options.text) ==> Apply(VISIBLE, Some(image), options) == Ok(EmbedVisible(options.text.value, options))
    ensures Truthy(options.secretKey) ==> Apply(INVISIBLE_LSB, Some(image), options) == Ok(EmbedLsb(options))
    ensures Truthy(options.secretKey) ==> Recover(INVISIBLE_LSB, Some(image), options) == Ok(ExtractLsb(options))
    ensures Apply(INVISIBLE_DCT, Some(image), options) == Ok(EmbedDct(options))
    ensures Apply(INVISIBLE_DWT, Some(image), options) == Ok(EmbedDwt(options))
    ensures Recover(INVISIBLE_DCT, Some(image), options) == Ok(ExtractDct(options))
    ensures Recover(INVISIBLE_DWT, Some(image), options) == Ok(ExtractDwt(options))
  {
  }

  /** The error each missing requirement produces. */
  lemma Refusals<I>(image: I, options: Options)
    ensures !Truthy(options.text) ==> Apply(VISIBLE, Some(image), options) == Err(VISIBLE_TEXT_REQUIRED)
    ensures !Truthy(options.secretKey) ==> Apply(INVISIBLE_LSB, Some(image), options) == Err(LSB_KEY_REQUIRED)
    ensures !Truthy(options.secretKey) ==> Recover(INVISIBLE_LSB, Some(image), options) == Err(LSB_EXTRACT_KEY_REQUIRED)
  {
  }

  /** Recovering a visible mark ignores the options and always extracts with the fixed, non-empty key. */
  lemma VisibleKeyFixed<I>(image: I, options: Options, options': Options)
    ensures Recover(VISIBLE, Some(image), options) == Recover(VISIBLE, Some(image), options')
    ensures Recover(VISIBLE, Some(image), options).Ok?
    ensures KeyOf(Recover(VISIBLE, Some(image), options).value.options) == VISIBLE_DEFAULT_KEY
  {
  }

  /**
   * An LSB mark the engine embeds can be recovered through the engine with
   * the same options: both calls use the same non-empty key, and when the
   * serialised record meets the round-trip conditions of the codec,
   * extraction gives it back as a valid watermark.
   */
  lemma LsbThroughEngine<I>(o: LsbWatermark.Oracle, image: I, data: seq<Byte>, options: Options,
                            entropy: nat, entropy': nat, ts: int, userNumber: nat)
    requires Apply(INVISIBLE_LSB, Some(image), options).Ok?
    requires |data| % 4 == 0
    requires var rec := LsbWatermark.MakeRecord(o, KeyOf(options), ts, userNumber, options.text);
             var raw := o.stringify(rec);
      && o.parse(raw) == LsbWatermark.Value(LsbWatermark.RecordJson(rec))
      && (forall i :: 0 <= i < |raw| ==> 0 < raw[i] < 256)
      && 8 * |raw| + 8 <= |data| / 4
      && 8 * |raw| + 8 <= LsbWatermark.MAX_BITS
    ensures Recover(INVISIBLE_LSB, Some(image), options) == Ok(ExtractLsb(options))
    ensures var key := KeyOf(Apply(INVISIBLE_LSB, Some(image), options).value.options);
            var e := LsbWatermark.EmbedSpec(o, data, key, entropy, ts, userNumber, options.text);
      && e.Ok?
      && LsbWatermark.ExtractSpec(o, e.value.data, KeyOf(Recover(INVISIBLE_LSB, Some(image), options).value.options), entropy')
         == LsbWatermark.Recovered(true, false, Some(LsbWatermark.RecordJson(LsbWatermark.MakeRecord(o, key, ts, userNumber, options.text))), e.value.watermarkData)
  {
    Routing(image, options);
    LsbWatermark.RoundTrip(o, data, KeyOf(options), entropy, entropy', ts, userNumber, options.text);
  }
}
