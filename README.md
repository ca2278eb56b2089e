# Deeptrace steganography core, modelled in Dafny

Deeptrace hides data in images and text and looks for data hidden by others.
This project models the parts of it that decide which bits carry a message
and how the message is framed, read back and checked.

**Keyed image watermark (frontend).** `embedLSB` serialises a record
holding an id, a time stamp, SHA-256 of key and time stamp, and a text. It
spells each UTF-16 code unit of the record in binary, padded to at least
eight digits, and appends eight zeros. It then writes the digits, one per
pixel, into the least significant bit of the red byte of the pixels. The
pixels are visited in an order that a seeded linear congruential generator
(`PMRNG`) shuffles with Fisher-Yates. `extractLSB` rebuilds the same order
from the key. It reads at most 100000 bits and stops at the first zero
byte on a byte boundary. It decodes the bits in groups of eight, parses the
text as JSON and compares the stored hash with SHA-256 of key and time
stamp. `applyWatermark` and `recoverWatermark` check their inputs and pass
each call to the strategy for its watermark type.

* `Prng`: the generator, as a class with a `state` field.
* `LsbWatermark`: embedding and extraction as methods over the RGBA
  `array<Byte>`, each proved against a function on sequences.
* `WatermarkEngine`: the two dispatchers. Its lemmas `Routing`,
  `Refusals` and `VisibleKeyFixed` hold by unfolding the bodies of `Apply`
  and `Recover`, which Dafny does without further proof steps.

**Stego toolkit (backend).**

* `ImageUtils` and `Bits`: text and bit conversion, and LSB get and set.
* `ImageLsb`: sequential LSB embedding in the R, G and B values of an
  image, with a 16-bit end marker, and the capacity rule.
* `TextUtils`: the strict text codec.
* `Whitespace` and `Zerowidth`: the two text carriers.
  * Whitespace puts a space or a tab between the words of a cover text.
  * Zerowidth appends U+200B and U+200C characters.
* `BitSearch`: the search both text carriers use for the first end marker.
* `Caesar`: the Caesar cipher.
* `LsbExtraction`: the LSB payload extractor.
* `Scoring`: the risk score of the steganalysis report.
* `Header`: the file-header signature score.
* `Validators`: the input validators.
* `Utf8` and `PyText`: what these modules need from Python's UTF-8 codec
  and string methods.

Each `for` or `while` loop of the source is a method with invariants,
proved equal to a specification function. The one exception is the
signature loop of `header_score`, which returns from inside the loop and
is the recursive function `Header.MatchFrom`. The properties are lemmas
about the specification functions:

* round trips for every codec;
* the exact conditions under which a round trip fails;
* the permutation and bijection facts about the shuffle;
* what the watermark writes and what it leaves untouched.

Byte arrays are `seq<Byte>` and `array<Byte>`. Bit strings are `seq<Bit>`,
with the most significant bit first. Python strings are `string`, and
JavaScript strings are sequences of UTF-16 code units.

## Model

| member | source | states |
|---|---|---|
| Prng.ToInt32 | deeptrace-frontend/src/utils/watermark/strategies/LSBStrategy.js:21 | the result lies in the signed 32-bit range and is congruent to its argument modulo 2^32, which is what `hash & hash` leaves |
| Prng.ToInt32Congruent | deeptrace-frontend/src/utils/watermark/strategies/LSBStrategy.js:19-21 | arguments that differ by a multiple of 2^32 wrap to the same 32-bit value |
| Prng.HashStepIs31 | deeptrace-frontend/src/utils/watermark/strategies/LSBStrategy.js:20-21 | one step `(hash << 5) - hash + char`, wrapped, equals 31 * hash + char wrapped to 32 bits |
| Prng.Hash | deeptrace-frontend/src/utils/watermark/strategies/LSBStrategy.js:17-22 | the running hash stays in the signed 32-bit range |
| Prng.HashIsPoly | deeptrace-frontend/src/utils/watermark/strategies/LSBStrategy.js:16-24 | the hash of a key is the polynomial sum of its code units in base 31, wrapped to 32 bits once at the end |
| Prng.SeedOf | deeptrace-frontend/src/utils/watermark/strategies/LSBStrategy.js:23 | `Math.abs(hash)` is the hash or its negation and at most m = 2^31, which it equals exactly for the hash -2^31 |
| Prng.StringToSeed | deeptrace-frontend/src/utils/watermark/strategies/LSBStrategy.js:16-24 | the loop returns SeedOf(key), a value between 0 and 2^31 |
| Prng.Next | deeptrace-frontend/src/utils/watermark/strategies/LSBStrategy.js:27 | the next state `(a * state + c) % m` is below m |
| Prng.Swap | deeptrace-frontend/src/utils/watermark/strategies/LSBStrategy.js:38-40 | positions i and j trade their elements and every other position is kept |
| Prng.ShuffleFrom | deeptrace-frontend/src/utils/watermark/strategies/LSBStrategy.js:32-42 | the Fisher-Yates pass from a given index keeps the length |
| Prng.Shuffled | deeptrace-frontend/src/utils/watermark/strategies/LSBStrategy.js:32-42 | shuffling keeps the length |
| Prng.Pmrng.constructor | deeptrace-frontend/src/utils/watermark/strategies/LSBStrategy.js:8-13 | a non-empty key seeds the state with its hash; an empty key seeds it with the random value handed in, below m - 1 |
| Prng.Pmrng.NextInt | deeptrace-frontend/src/utils/watermark/strategies/LSBStrategy.js:26-29 | the state advances by one generator step and the new state is returned |
| Prng.Pmrng.Shuffle | deeptrace-frontend/src/utils/watermark/strategies/LSBStrategy.js:32-42 | the array in place becomes Shuffled of its old contents from the old state, the state has advanced once per element, and the multiset of elements is kept |
| Prng.SwapPermutes | deeptrace-frontend/src/utils/watermark/strategies/LSBStrategy.js:38-40 | a swap keeps the multiset of elements |
| Prng.ShufflePermutes | deeptrace-frontend/src/utils/watermark/strategies/LSBStrategy.js:32-42 | the shuffle is a permutation of its input |
| Prng.Identity | deeptrace-frontend/src/utils/watermark/strategies/LSBStrategy.js:88-89 | the index array holds 0..n-1 at their own positions |
| Prng.SwapInjective | deeptrace-frontend/src/utils/watermark/strategies/LSBStrategy.js:38-40 | a swap keeps a sequence free of repeated values |
| Prng.ShuffleInjective | deeptrace-frontend/src/utils/watermark/strategies/LSBStrategy.js:32-42 | the shuffle keeps a sequence free of repeated values |
| Prng.ShuffleBijection | deeptrace-frontend/src/utils/watermark/strategies/LSBStrategy.js:88-93 | the shuffled index array holds each of 0..n-1 exactly once, whatever the seed |
| Prng.ShuffleEmpty | deeptrace-frontend/src/utils/watermark/strategies/LSBStrategy.js:33-34 | an empty array is left empty and the generator is not advanced |
| LsbWatermark.MakeRecord | deeptrace-frontend/src/utils/watermark/strategies/LSBStrategy.js:63-68 | the record carries the time stamp, SHA-256 of key and time stamp, and the text or "" when the text is absent or empty |
| LsbWatermark.Binary | deeptrace-frontend/src/utils/watermark/strategies/LSBStrategy.js:73 | `toString(2)` gives at least one digit (see BinaryIsFixed for its value) |
| LsbWatermark.PadStart8 | deeptrace-frontend/src/utils/watermark/strategies/LSBStrategy.js:73 | fewer than eight digits are padded with zeros in front to eight; eight or more are kept; the input is always the tail of the result |
| LsbWatermark.BinaryIsFixed | deeptrace-frontend/src/utils/watermark/strategies/LSBStrategy.js:73 | for n below 2^w, the digits of n padded with zeros to w are the w-digit binary spelling of n |
| LsbWatermark.CharBitsNarrow | deeptrace-frontend/src/utils/watermark/strategies/LSBStrategy.js:73 | a code unit below 256 is spelled as its eight-digit binary form |
| LsbWatermark.CharValue | deeptrace-frontend/src/utils/watermark/strategies/LSBStrategy.js:73 | a code unit below 256 takes exactly eight digits, and their value is the code unit |
| LsbWatermark.FrameSpec | deeptrace-frontend/src/utils/watermark/strategies/LSBStrategy.js:71-78 | the frame ends with the eight-zero terminator |
| LsbWatermark.FrameLength | deeptrace-frontend/src/utils/watermark/strategies/LSBStrategy.js:71-78 | with every code unit below 256 the frame is 8 digits per code unit plus the 8-digit terminator |
| LsbWatermark.FrameGroup | deeptrace-frontend/src/utils/watermark/strategies/LSBStrategy.js:72-75 | with every code unit below 256, digits 8k..8k+8 of the frame spell code unit k |
| LsbWatermark.GroupEnd | deeptrace-frontend/src/utils/watermark/strategies/LSBStrategy.js:171 | `slice(i, i + 8)` ends eight digits on, or at the end of a shorter last group |
| LsbWatermark.DecodeFrame | deeptrace-frontend/src/utils/watermark/strategies/LSBStrategy.js:170-173 | decoding the frame of code units below 256 gives those code units back |
| LsbWatermark.WideCharMisread | deeptrace-frontend/src/utils/watermark/strategies/LSBStrategy.js:72-173 | the euro sign (0x20AC) takes 14 digits, so its 22-digit frame has its terminator off a byte boundary; reading a stream that starts with that frame keeps at least 16 digits, and the first two code units decoded are 130 and 176 |
| LsbWatermark.EuroDigits | deeptrace-frontend/src/utils/watermark/strategies/LSBStrategy.js:73 | `(8364).toString(2)` is the 14 digits 10000010101100 |
| LsbWatermark.EuroGroups | deeptrace-frontend/src/utils/watermark/strategies/LSBStrategy.js:71-78 | the frame of the euro sign is 22 digits; its first two bytes start with 1 and decode to 130 and 176 |
| LsbWatermark.FrameOfOne | deeptrace-frontend/src/utils/watermark/strategies/LSBStrategy.js:71-78 | the frame of a single code unit is its digits followed by the eight-zero terminator |
| LsbWatermark.GroupValues | deeptrace-frontend/src/utils/watermark/strategies/LSBStrategy.js:171-172 | the first two groups of eight cut from the euro sign frame decode to 130 and 176 |
| LsbWatermark.ScanPastTwoBytes | deeptrace-frontend/src/utils/watermark/strategies/LSBStrategy.js:157-163 | when neither of the first two bytes read is zero, reading goes on past both and keeps them |
| LsbWatermark.WideBits | deeptrace-frontend/src/utils/watermark/strategies/LSBStrategy.js:73 | corrected spelling: every code unit takes sixteen digits |
| LsbWatermark.WideFrame | deeptrace-frontend/src/utils/watermark/strategies/LSBStrategy.js:72-75 | corrected frame: sixteen digits per code unit |
| LsbWatermark.WideDecode | deeptrace-frontend/src/utils/watermark/strategies/LSBStrategy.js:170-173 | corrected decoder: one code unit per group of sixteen digits |
| LsbWatermark.WideGroup | deeptrace-frontend/src/utils/watermark/strategies/LSBStrategy.js:72-75 | digits 16k..16k+16 of the corrected frame spell code unit k |
| LsbWatermark.WideAt | deeptrace-frontend/src/utils/watermark/strategies/LSBStrategy.js:170-173 | group k of the corrected frame decodes to code unit k |
| LsbWatermark.WideDecodeFrame | deeptrace-frontend/src/utils/watermark/strategies/LSBStrategy.js:72-75 | with sixteen digits per code unit, decoding gives back every sequence of code units |
| LsbWatermark.StopFrom | deeptrace-frontend/src/utils/watermark/strategies/LSBStrategy.js:157-163 | the stop the scan finds, stepping by the group width (eight in the source), lies between the start and the end of the stream |
| LsbWatermark.NoGroupInside | deeptrace-frontend/src/utils/watermark/strategies/LSBStrategy.js:158 | between two multiples of the group width no all-zero group ends |
| LsbWatermark.StopFromFound | deeptrace-frontend/src/utils/watermark/strategies/LSBStrategy.js:157-163 | what the scan finds is an all-zero group on a boundary of the group width (a zero byte on a byte boundary in the source) with none before it |
| LsbWatermark.StopFromNone | deeptrace-frontend/src/utils/watermark/strategies/LSBStrategy.js:157-163 | when the scan finds nothing, no all-zero group ends on a boundary |
| LsbWatermark.ScanResult | deeptrace-frontend/src/utils/watermark/strategies/LSBStrategy.js:150-165 | the kept bits are a prefix of the bits read; they are all of them exactly when no aligned all-zero group (zero byte in the source) occurs, and otherwise the first one follows them directly |
| LsbWatermark.FirstStopAt | deeptrace-frontend/src/utils/watermark/strategies/LSBStrategy.js:157-163 | an aligned all-zero group ending at j with none before it is where reading stops |
| LsbWatermark.NoStop | deeptrace-frontend/src/utils/watermark/strategies/LSBStrategy.js:150-165 | without an aligned all-zero group everything read is kept |
| LsbWatermark.WriteAll | deeptrace-frontend/src/utils/watermark/strategies/LSBStrategy.js:96-103 | writing the bits keeps the number of bytes |
| LsbWatermark.WriteAllHigh | deeptrace-frontend/src/utils/watermark/strategies/LSBStrategy.js:102 | writing changes no byte above its least significant bit |
| LsbWatermark.WriteAllAt | deeptrace-frontend/src/utils/watermark/strategies/LSBStrategy.js:96-103 | with distinct chosen pixels, the red byte of pixel order[i] ends with bit i |
| LsbWatermark.WriteAllElsewhere | deeptrace-frontend/src/utils/watermark/strategies/LSBStrategy.js:96-103 | a byte that is the red byte of no chosen pixel is left as it was |
| LsbWatermark.Reads | deeptrace-frontend/src/utils/watermark/strategies/LSBStrategy.js:150-154 | bit i read is the least significant bit of the red byte of pixel order[i] |
| LsbWatermark.Verify | deeptrace-frontend/src/utils/watermark/strategies/LSBStrategy.js:176-198 | a text whose parse gives a value other than null is decoded to that value, not marked raw, and valid exactly when the value has a string hash equal to SHA-256 of key and its ts; a text whose parse throws or gives null (whose ts cannot be read) is returned raw, marked raw and invalid |
| LsbWatermark.VerifyRecord | deeptrace-frontend/src/utils/watermark/strategies/LSBStrategy.js:176-189 | a text that parses to a record is decoded to it and valid exactly when its hash is SHA-256 of key and its own time stamp |
| LsbWatermark.VerifyUnsigned | deeptrace-frontend/src/utils/watermark/strategies/LSBStrategy.js:176-189 | a text that parses to a value without a string hash, such as "5", is decoded, not raw and invalid |
| LsbWatermark.Order | deeptrace-frontend/src/utils/watermark/strategies/LSBStrategy.js:88-93 | the embedding order holds each pixel index exactly once |
| LsbWatermark.BijectionRed | deeptrace-frontend/src/utils/watermark/strategies/LSBStrategy.js:98 | every pixel of the order has its red byte inside the image, and no pixel is chosen twice |
| LsbWatermark.EmbedSpec | deeptrace-frontend/src/utils/watermark/strategies/LSBStrategy.js:62-109 | embedding fails with "Image too small to hold watermark data." exactly when the frame has more digits than the image has pixels; otherwise it returns the serialised record and keeps the image size |
| LsbWatermark.WriteAllLowOnly | deeptrace-frontend/src/utils/watermark/strategies/LSBStrategy.js:102 | no byte has more than its least significant bit changed |
| LsbWatermark.WriteAllSets | deeptrace-frontend/src/utils/watermark/strategies/LSBStrategy.js:96-103 | the red byte of the i-th chosen pixel ends with bit i of the frame |
| LsbWatermark.NotRedUnselected | deeptrace-frontend/src/utils/watermark/strategies/LSBStrategy.js:98 | a green, blue or alpha byte is the red byte of no pixel |
| LsbWatermark.WriteAllKeeps | deeptrace-frontend/src/utils/watermark/strategies/LSBStrategy.js:96-103 | the bytes of unchosen pixels and every green, blue and alpha byte are left as they were |
| LsbWatermark.EmbedChanges | deeptrace-frontend/src/utils/watermark/strategies/LSBStrategy.js:96-103 | the embedded image differs from the input only in the least significant bits of the red bytes of the first |frame| pixels of the order, which hold the frame |
| LsbWatermark.NonZeroChar | deeptrace-frontend/src/utils/watermark/strategies/LSBStrategy.js:159 | a code unit from 1 to 255 never spells a zero byte |
| LsbWatermark.StreamGroup | deeptrace-frontend/src/utils/watermark/strategies/LSBStrategy.js:72-75 | in a stream that starts with a frame, digits 8k..8k+8 spell code unit k |
| LsbWatermark.NoEarlyZero | deeptrace-frontend/src/utils/watermark/strategies/LSBStrategy.js:157-163 | inside the frame of code units from 1 to 255 no zero byte ends on a byte boundary |
| LsbWatermark.TerminatorAt | deeptrace-frontend/src/utils/watermark/strategies/LSBStrategy.js:78 | the terminator sits on a byte boundary right after the digits of the code units |
| LsbWatermark.NoZeroBefore | deeptrace-frontend/src/utils/watermark/strategies/LSBStrategy.js:157-163 | no aligned zero byte occurs before the terminator of such a frame |
| LsbWatermark.StopsAtTerminator | deeptrace-frontend/src/utils/watermark/strategies/LSBStrategy.js:150-165 | reading a stream that starts with the frame of code units from 1 to 255 stops at the terminator and keeps exactly the digits of the code units |
| LsbWatermark.ReadBack | deeptrace-frontend/src/utils/watermark/strategies/LSBStrategy.js:150-154 | reading the chosen red bits after writing returns the bits written |
| LsbWatermark.RoundTrip | deeptrace-frontend/src/utils/watermark/strategies/LSBStrategy.js:45-210 | with a non-empty key, a record whose serialisation parses back to it and uses only code units 1..255, and a frame that fits the image and the 100000-bit bound, extraction after embedding returns the record, valid and not raw |
| LsbWatermark.ExtractWritten | deeptrace-frontend/src/utils/watermark/strategies/LSBStrategy.js:134-198 | extraction from an image the frame was written into in the same order verifies exactly the serialised record |
| LsbWatermark.WrittenText | deeptrace-frontend/src/utils/watermark/strategies/LSBStrategy.js:144-173 | the text read back after writing a frame in the same order is the serialised record |
| LsbWatermark.ReadFrame | deeptrace-frontend/src/utils/watermark/strategies/LSBStrategy.js:144-165 | reading at least a frame of bits after writing it keeps exactly the digits of the code units |
| LsbWatermark.WideFrameSpec | deeptrace-frontend/src/utils/watermark/strategies/LSBStrategy.js:71-78 | corrected frame: sixteen digits per code unit and sixteen zeros, 16n + 16 digits in all |
| LsbWatermark.WideEmbedSpec | deeptrace-frontend/src/utils/watermark/strategies/LSBStrategy.js:62-109 | corrected embedding fails with "Image too small to hold watermark data." exactly when 16n + 16 digits outnumber the pixels; otherwise it returns the serialised record and keeps the image size |
| LsbWatermark.WideNonZero | deeptrace-frontend/src/utils/watermark/strategies/LSBStrategy.js:73 | the sixteen digits of a code unit other than 0 are not all zero |
| LsbWatermark.WideStreamGroup | deeptrace-frontend/src/utils/watermark/strategies/LSBStrategy.js:72-75 | in a stream that starts with a corrected frame, digits 16k..16k+16 spell code unit k |
| LsbWatermark.WideNoEarlyZero | deeptrace-frontend/src/utils/watermark/strategies/LSBStrategy.js:157-163 | corrected scan: inside the corrected frame of non-zero code units no sixteen-zero group ends on a 16-digit boundary |
| LsbWatermark.WideTerminatorAt | deeptrace-frontend/src/utils/watermark/strategies/LSBStrategy.js:78 | corrected frame: the sixteen-zero terminator ends on a 16-digit boundary right after the code units |
| LsbWatermark.WideStopsAtTerminator | deeptrace-frontend/src/utils/watermark/strategies/LSBStrategy.js:150-165 | corrected scan: a stream starting with the corrected frame of non-zero code units stops at its terminator and keeps exactly the code units digits |
| LsbWatermark.WideWrittenText | deeptrace-frontend/src/utils/watermark/strategies/LSBStrategy.js:144-173 | corrected codec: the text read back after writing the corrected frame of text without NUL, in the same order, is that text, whatever its code units |
| LsbWatermark.WideRoundTrip | deeptrace-frontend/src/utils/watermark/strategies/LSBStrategy.js:45-210 | corrected codec: with a non-empty key, a record whose serialisation parses back to it and has no NUL code unit, wide code units included, and a 16n + 16 digit frame that fits the image and the 100000-bit bound, extraction after embedding returns the record, valid and not raw |
| LsbWatermark.IndexArray | deeptrace-frontend/src/utils/watermark/strategies/LSBStrategy.js:88-89 | a fresh array holding 0..n-1 |
| LsbWatermark.ShuffledIndices | deeptrace-frontend/src/utils/watermark/strategies/LSBStrategy.js:88-93 | a fresh array holding the key-seeded order of the pixel indices |
| LsbWatermark.FrameCharsFrom | deeptrace-frontend/src/utils/watermark/strategies/LSBStrategy.js:72-75 | the frame from code unit i on starts with the digits of code unit i |
| LsbWatermark.Frame | deeptrace-frontend/src/utils/watermark/strategies/LSBStrategy.js:71-78 | the framing loop builds FrameSpec of the serialised record |
| LsbWatermark.WriteBits | deeptrace-frontend/src/utils/watermark/strategies/LSBStrategy.js:96-103 | the embedding loop leaves the bytes equal to WriteAll of their old value |
| LsbWatermark.ScanBits | deeptrace-frontend/src/utils/watermark/strategies/LSBStrategy.js:144-165 | the reading loop returns ScanSpec of the red least significant bits in the shuffled order, at most maxBits of them |
| LsbWatermark.DecodeText | deeptrace-frontend/src/utils/watermark/strategies/LSBStrategy.js:169-173 | the decoding loop returns DecodeSpec of the kept bits |
| LsbWatermark.EmbedLsb | deeptrace-frontend/src/utils/watermark/strategies/LSBStrategy.js:45-117 | on a frame too long for the image the error is returned and no byte changes; otherwise the serialised record is returned and the bytes become those of EmbedSpec |
| LsbWatermark.ExtractLsb | deeptrace-frontend/src/utils/watermark/strategies/LSBStrategy.js:119-210 | the result is ExtractSpec of the image bytes |
| WatermarkEngine.KeyOf | deeptrace-frontend/src/utils/watermark/strategies/LSBStrategy.js:46 | the key handed to the generator is non-empty exactly when the secretKey option is truthy |
| WatermarkEngine.Apply | deeptrace-frontend/src/utils/watermark/watermarkEngine.js:7-27 | no image is refused first; an unknown type is refused naming the type; a strategy is called exactly when the type is known, visible has text and invisible_lsb has a key; the LSB strategy is only called with a non-empty key |
| WatermarkEngine.Recover | deeptrace-frontend/src/utils/watermark/watermarkEngine.js:30-49 | no image is refused first; an unknown type is refused naming the type; a strategy is called exactly when the type is known and invisible_lsb has a key; the LSB extractor is only called with a non-empty key |
| WatermarkEngine.Routing | deeptrace-frontend/src/utils/watermark/watermarkEngine.js:10-45 | each type is handed to its own strategy with the options; DCT and DWT are passed on with no key check |
| WatermarkEngine.Refusals | deeptrace-frontend/src/utils/watermark/watermarkEngine.js:12-38 | missing text for visible and a missing key for invisible_lsb give their own messages |
| WatermarkEngine.VisibleKeyFixed | deeptrace-frontend/src/utils/watermark/watermarkEngine.js:34-35 | recovering a visible mark ignores the options and extracts with the fixed key "VISIBLE_DEFAULT_KEY" |
| WatermarkEngine.LsbThroughEngine | deeptrace-frontend/src/utils/watermark/watermarkEngine.js:15-17 | an LSB mark embedded through the engine is recovered through the engine with the same options as a valid record, under the conditions of LsbWatermark.RoundTrip |
| Bits.FixedBits | deeptrace-backend/stego/image/utils.py:5 | `format(byte, '08b')` for width 8: exactly w digits |
| Bits.BitsValue | deeptrace-backend/stego/image/utils.py:13 | `int(c, 2)`: the value of w digits is below 2^w |
| Bits.ValueOfFixedBits | deeptrace-backend/stego/image/utils.py:5-13 | reading back the w-digit spelling of n below 2^w gives n |
| Bits.FixedBitsOfValue | deeptrace-backend/stego/image/utils.py:5-13 | spelling the value of a digit string in as many digits gives the string back |
| Bits.ByteBits | deeptrace-backend/stego/text/utils.py:9 | a byte is spelled in eight digits |
| Bits.BytesToBits | deeptrace-backend/stego/image/utils.py:5 | eight digits per byte |
| Bits.BytesToBitsAt | deeptrace-backend/stego/image/utils.py:5 | digit 8k+t of the bits is digit t of byte k |
| Bits.BytesToBitsAppend | deeptrace-backend/stego/image/utils.py:5 | the bits of a concatenation are the concatenated bits |
| Bits.BitsToBytes | deeptrace-backend/stego/image/utils.py:12-13 | one byte per complete group of eight digits |
| Bits.BitsToBytesAt | deeptrace-backend/stego/image/utils.py:12-13 | byte k is the value of digits 8k..8k+8 |
| Bits.BitsToBytesOfBytesToBits | deeptrace-backend/stego/image/utils.py:5-13 | packing the bits of bytes, with an incomplete group after them, gives the bytes back |
| Bits.BytesToBitsOfBitsToBytes | deeptrace-backend/stego/image/utils.py:12-13 | unpacking the packed bytes gives the complete groups of the bits back |
| Bits.SetLsb | deeptrace-backend/stego/image/utils.py:18-22 | the result ends with the bit and keeps every higher bit; setting the bit a value already has changes nothing; bytes stay bytes |
| ImageUtils.TextToBits | deeptrace-backend/stego/image/utils.py:1-5 | the bits of a text are eight digits per byte of its UTF-8 encoding and pack back to that encoding |
| ImageUtils.TextToBitsAt | deeptrace-backend/stego/image/utils.py:5 | digit 8k+t is digit t of byte k of the UTF-8 encoding |
| ImageUtils.PartialGroupIgnored | deeptrace-backend/stego/image/utils.py:13 | an incomplete last group of digits is ignored |
| ImageUtils.BitsToTextOfTextToBits | deeptrace-backend/stego/image/utils.py:1-15 | decoding the bits of a text, with fewer than eight digits after them, gives the text back |
| ImageUtils.LsbLaws | deeptrace-backend/stego/image/utils.py:18-29 | get_lsb reads what set_lsb wrote; setting the bit a value has keeps it; the last of two writes wins |
| Utf8.EncodeChar | deeptrace-backend/stego/text/utils.py:9 | one to four bytes per scalar value, leading byte 0 only for NUL, no byte above 0xF4, continuation bytes after the first |
| Utf8.Encode | deeptrace-backend/stego/text/utils.py:9 | at least one byte per character, empty only for the empty text, never a 0xFF byte, no 0 byte without a NUL character |
| Utf8.DecodeChar | deeptrace-backend/stego/text/utils.py:27 | a decoded character uses one to four of the available bytes |
| Utf8.Decode2 | deeptrace-backend/stego/text/utils.py:27 | a two-byte sequence uses exactly two bytes |
| Utf8.Decode3 | deeptrace-backend/stego/text/utils.py:27 | a three-byte sequence uses exactly three bytes |
| Utf8.Decode4 | deeptrace-backend/stego/text/utils.py:27 | a four-byte sequence uses exactly four bytes |
| Utf8.DecodeCharOfEncodeChar | deeptrace-backend/stego/text/utils.py:9-27 | the decoder reads back the encoding of any character, whatever follows it |
| Utf8.EncodeCharOfDecodeChar | deeptrace-backend/stego/text/utils.py:27 | the bytes a character was decoded from are its encoding |
| Utf8.DecodeStrictOfEncode | deeptrace-backend/stego/text/utils.py:9-27 | strict decoding of the encoding of a text gives the text |
| Utf8.EncodeOfDecodeStrict | deeptrace-backend/stego/text/utils.py:27 | bytes that decode strictly are the encoding of what they decode to |
| Utf8.DecodeIgnoreOfEncode | deeptrace-backend/stego/image/utils.py:15 | lenient decoding of the encoding of a text gives the text |
| PyText.WordPrefix | deeptrace-backend/stego/text/whitespace.py:15 | the leading run of non-space characters of a string |
| PyText.Split | deeptrace-backend/stego/text/whitespace.py:15 | `split()` yields non-empty words with no whitespace in them |
| PyText.LStrip | deeptrace-backend/utils/validators.py:21 | removes exactly the leading whitespace |
| PyText.RStrip | deeptrace-backend/utils/validators.py:21 | removes exactly the trailing whitespace |
| PyText.StripEmpty | deeptrace-backend/utils/validators.py:21 | `strip()` is empty exactly when every character is whitespace |
| TextUtils.TextToBits | deeptrace-backend/stego/text/utils.py:1-9 | a non-string raises ValueError; a string gives eight digits per byte of its UTF-8 encoding |
| TextUtils.BitsToText | deeptrace-backend/stego/text/utils.py:12-29 | no bits, unaligned bits and bytes that are not UTF-8 each raise their ValueError; a result is text whose encoding is the packed bits |
| TextUtils.RoundTrip | deeptrace-backend/stego/text/utils.py:1-29 | decoding the bits of a non-empty text gives it back |
| TextUtils.BitsDetermineText | deeptrace-backend/stego/text/utils.py:12-29 | bits that decode to a text are exactly the bits of that text |
| BitSearch.FirstEndFrom | deeptrace-backend/stego/text/whitespace.py:32-39 | a position found from m on is at least m and a whole pattern fits before it |
| BitSearch.FirstEndFromSpec | deeptrace-backend/stego/text/whitespace.py:32-39 | the position found is the first from m on where the bits end with the pattern; none is found exactly when no such position exists |
| BitSearch.FirstEnd | deeptrace-backend/stego/text/zerowidth.py:20-27 | the first length of the growing bit string at which it ends with the marker |
| BitSearch.FirstEndSpec | deeptrace-backend/stego/text/zerowidth.py:26 | the position found is where the bits first end with the marker, and none is found exactly when they never do |
| BitSearch.FirstEndIs | deeptrace-backend/stego/text/zerowidth.py:26 | a position where the marker ends with none before it is the one found |
| BitSearch.FirstEndPrefix | deeptrace-backend/stego/text/zerowidth.py:26-27 | bits appended after the first marker do not move it |
| BitSearch.NoEndExtend | deeptrace-backend/stego/text/zerowidth.py:26 | no marker in a prefix and none ending in the appended part means none at all |
| BitSearch.FirstEndGrow | deeptrace-backend/stego/text/zerowidth.py:20-26 | when a bit string has no marker yet, one more bit finds it exactly when the marker now ends the string |
| BitSearch.BeforeFirst | deeptrace-backend/stego/text/zerowidth.py:27 | what precedes the first marker is a prefix of the bits |
| BitSearch.BeforeFirstPrefix | deeptrace-backend/stego/text/zerowidth.py:27 | bits after the first marker do not change what precedes it |
| BitSearch.MarkedBits | deeptrace-backend/stego/text/zerowidth.py:12 | the bits of the secret followed by the 16-bit marker |
| BitSearch.MarkerShape | deeptrace-backend/stego/text/zerowidth.py:5 | the marker is fifteen 1 bits and a 0 bit |
| BitSearch.ZeroInFifteen | deeptrace-backend/stego/text/zerowidth.py:12 | any fifteen bits inside UTF-8 bytes contain a 0 bit |
| BitSearch.NoEarlyMarker | deeptrace-backend/stego/text/zerowidth.py:26 | no marker ends inside the bits of a UTF-8 text followed by the marker |
| BitSearch.MarkerAfterText | deeptrace-backend/stego/text/zerowidth.py:26 | the first marker ends right after the bits of the text |
| BitSearch.BeforeMarkedBits | deeptrace-backend/stego/text/zerowidth.py:27 | what precedes the first marker of marked bits is the bits of the text, whatever follows |
| BitSearch.CarrierBit | deeptrace-backend/stego/text/zerowidth.py:21-24 | each character adds at most one bit |
| BitSearch.CarrierBits | deeptrace-backend/stego/text/zerowidth.py:20-24 | at most one bit per character |
| BitSearch.CarrierStep | deeptrace-backend/stego/text/zerowidth.py:20-24 | one more character appends its bit |
| BitSearch.CarrierBitsAppend | deeptrace-backend/stego/text/zerowidth.py:20-24 | the bits of a concatenation are the concatenated bits |
| BitSearch.MarkerInPrefix | deeptrace-backend/stego/text/zerowidth.py:26-27 | once a prefix of the text ends its bits with the marker, the result is what precedes the marker in the whole text |
| BitSearch.ScanCarriers | deeptrace-backend/stego/text/zerowidth.py:17-27 | the character loop with its early return gives what precedes the first marker among the carrier bits |
| ImageLsb.Capacity | deeptrace-backend/stego/image/capacity.py:1-16 | a non-RGB mode raises ValueError; an RGB image holds floor(3 * width * height / 8) bytes |
| ImageLsb.CapacityOfEmpty | deeptrace-backend/stego/image/capacity.py:10-16 | an image without pixels holds nothing |
| ImageLsb.CapacityMonotone | deeptrace-backend/stego/image/capacity.py:10-16 | a larger image holds at least as much |
| ImageLsb.AcceptedPayloadFits | deeptrace-backend/stego/image/lsb.py:11-12 | a secret the size check accepts has its marked bits fit the R, G and B channels |
| ImageLsb.EmbedAll | deeptrace-backend/stego/image/lsb.py:17-31 | embedding keeps the pixel count and three values per pixel |
| ImageLsb.EmbedAllChannel | deeptrace-backend/stego/image/lsb.py:22-29 | channel c of pixel p ends with bit 3p+c when there is one and keeps its higher bits; otherwise it is unchanged |
| ImageLsb.LsbStream | deeptrace-backend/stego/image/lsb.py:38-43 | three bits per pixel |
| ImageLsb.LsbStreamAppend | deeptrace-backend/stego/image/lsb.py:38-43 | the stream of a concatenation of pixels is the concatenated streams |
| ImageLsb.LsbStreamAt | deeptrace-backend/stego/image/lsb.py:40-43 | bit 3p+c is the LSB of channel c of pixel p |
| ImageLsb.EmbeddedStream | deeptrace-backend/stego/image/lsb.py:17-43 | the stream of an embedded image starts with the embedded bits |
| ImageLsb.RoundTrip | deeptrace-backend/stego/image/lsb.py:7-49 | a secret the size check accepts is extracted back from the embedded image |
| ImageLsb.RecoverPayload | deeptrace-backend/stego/image/lsb.py:45-47 | decoding what precedes the first marker of marked bits gives the secret |
| ImageLsb.WritePixel | deeptrace-backend/stego/image/lsb.py:22-29 | one pixel gets up to three bits in R, G, B and the index advances past them |
| ImageLsb.WriteBits | deeptrace-backend/stego/image/lsb.py:17-31 | the row-by-row loop with its early return leaves the pixels equal to EmbedAll of their old value |
| ImageLsb.EmbedLsb | deeptrace-backend/stego/image/lsb.py:7-31 | non-RGB and too-large secrets raise their ValueError and change nothing; otherwise the same image is returned with its pixels equal to EmbedAll |
| ImageLsb.LsbStreamStep | deeptrace-backend/stego/image/lsb.py:40-43 | one more pixel appends its three LSBs |
| ImageLsb.LsbStreamSplit | deeptrace-backend/stego/image/lsb.py:38-43 | the stream of the pixels is that of a prefix followed by that of the rest |
| ImageLsb.FoundMarker | deeptrace-backend/stego/image/lsb.py:45-47 | once the stream read so far holds the marker, the result is the text before the first marker |
| ImageLsb.ExtractLsb | deeptrace-backend/stego/image/lsb.py:34-49 | the result is ExtractSpec of the pixels: "" for no pixels or no marker, the unpacking error for pixels without exactly three values, otherwise the text before the first marker |
| LsbExtraction.LsbBits | deeptrace-backend/steganalysis/lsb_extraction.py:13 | bit i is the LSB of sample i |
| LsbExtraction.PayloadSpec | deeptrace-backend/steganalysis/lsb_extraction.py:4-31 | as many bytes as complete groups of eight, capped by max_bytes but at least one; byte k is the value of the LSBs of samples 8k..8k+8, most significant first |
| LsbExtraction.PackByte | deeptrace-backend/steganalysis/lsb_extraction.py:22-24 | the shift-and-or loop gives the value of the eight bits |
| LsbExtraction.ExtractPayload | deeptrace-backend/steganalysis/lsb_extraction.py:4-31 | the loop with its two breaks returns PayloadSpec |
| LsbExtraction.OnlyLsbMatters | deeptrace-backend/steganalysis/lsb_extraction.py:13 | samples with the same LSBs give the same payload |
| LsbExtraction.PartialGroupDropped | deeptrace-backend/steganalysis/lsb_extraction.py:18-20 | fewer than eight trailing samples are dropped |
| LsbExtraction.NonPositiveLimit | deeptrace-backend/steganalysis/lsb_extraction.py:28-29 | a limit of 0 or less still yields one byte, because the check follows the append |
| Whitespace.PayloadBits | deeptrace-backend/stego/text/whitespace.py:12 | eight digits per UTF-8 byte of the secret, then the eight zeros |
| Whitespace.Separator | deeptrace-backend/stego/text/whitespace.py:23-24 | at most one separator after each word |
| Whitespace.LayoutStep | deeptrace-backend/stego/text/whitespace.py:21-24 | each word is followed by its separator |
| Whitespace.NoCarrierBits | deeptrace-backend/stego/text/whitespace.py:33-36 | a word without spaces or tabs carries no bits |
| Whitespace.SeparatorBits | deeptrace-backend/stego/text/whitespace.py:23-24 | separator i carries bit i when there is one |
| Whitespace.LayoutCarries | deeptrace-backend/stego/text/whitespace.py:20-26 | the joined words carry the payload bits, one per gap |
| Whitespace.EmbeddedCarries | deeptrace-backend/stego/text/whitespace.py:15-26 | a cover with enough words carries exactly the payload bits |
| Whitespace.Embed | deeptrace-backend/stego/text/whitespace.py:8-26 | empty cover or secret and too few words raise their ValueError; otherwise the words joined by the bit separators |
| Whitespace.JoinLayout | deeptrace-backend/stego/text/whitespace.py:20-26 | the loop appends each word and, while bits remain, its separator, giving Layout of the words and bits |
| Whitespace.Extract | deeptrace-backend/stego/text/whitespace.py:29-41 | the loop with its early return gives ExtractSpec |
| Whitespace.StopsAfterPayload | deeptrace-backend/stego/text/whitespace.py:38 | the unaligned check first sees eight zeros right after the secret exactly when the secret bits end in 1 and contain no run of eight zeros |
| Whitespace.StopsWhenClean | deeptrace-backend/stego/text/whitespace.py:38 | secret bits ending in 1 with no run of eight zeros let the scan stop right after the written marker |
| Whitespace.CleanWhenStops | deeptrace-backend/stego/text/whitespace.py:38 | a scan that stops right after the written marker saw secret bits ending in 1 with no run of eight zeros |
| Whitespace.LastBitOne | deeptrace-backend/stego/text/whitespace.py:38 | if the check does not fire one bit early, the last secret bit is 1 |
| Whitespace.RoundTripIff | deeptrace-backend/stego/text/whitespace.py:8-41 | extraction after embedding gives the secret back exactly when its bits end in 1 and contain no run of eight zeros |
| Whitespace.PayloadRoundTripIff | deeptrace-backend/stego/text/whitespace.py:29-41 | the same condition, on the payload bits alone |
| Whitespace.DecodePayloadIff | deeptrace-backend/stego/text/whitespace.py:38-39 | the payload decodes to the secret exactly when the first eight zeros end right after the secret bits |
| Whitespace.BitsOfB | deeptrace-backend/stego/text/whitespace.py:12 | the bits of "b" are 01100010 |
| Whitespace.StopsEarlyOnB | deeptrace-backend/stego/text/whitespace.py:38 | for "b" the eight zeros are first seen after 15 bits |
| Whitespace.EvenLastByteFails | deeptrace-backend/stego/text/whitespace.py:38-39 | embedding "b" and extracting raises the unaligned ValueError |
| Whitespace.FirstZeroByte | deeptrace-backend/stego/text/whitespace.py:38 | corrected check: the first zero byte on a byte boundary, none before it |
| Whitespace.PayloadBytes | deeptrace-backend/stego/text/whitespace.py:12 | the payload packs to the UTF-8 bytes of the secret and a 0 byte |
| Whitespace.TerminatorFirstZero | deeptrace-backend/stego/text/whitespace.py:38 | for a secret without NUL the first zero byte is the terminator |
| Whitespace.AlignedRoundTrip | deeptrace-backend/stego/text/whitespace.py:38-39 | with the check on byte boundaries, every secret without NUL round-trips |
| Zerowidth.Spell | deeptrace-backend/stego/text/zerowidth.py:13 | one invisible character per bit: U+200B for 0, U+200C for 1 |
| Zerowidth.SpellCarries | deeptrace-backend/stego/text/zerowidth.py:20-24 | reading the invisible characters back gives the bits |
| Zerowidth.Embed | deeptrace-backend/stego/text/zerowidth.py:8-14 | empty cover or secret raises ValueError; otherwise the cover unchanged followed by 8 characters per UTF-8 byte and 16 for the marker |
| Zerowidth.Extract | deeptrace-backend/stego/text/zerowidth.py:17-29 | the character loop gives ExtractSpec |
| Zerowidth.PlainCarriesNothing | deeptrace-backend/stego/text/zerowidth.py:20-24 | a text without the two invisible characters carries no bits |
| Zerowidth.EmbeddedCarries | deeptrace-backend/stego/text/zerowidth.py:8-24 | the bits read from an embedded text are the marked secret |
| Zerowidth.RoundTrip | deeptrace-backend/stego/text/zerowidth.py:8-29 | with a cover free of the two invisible characters, extraction after embedding gives the secret |
| Caesar.Rotate | deeptrace-backend/crypto/caesar.py:14-18 | a rotated letter stays in its 26-letter alphabet |
| Caesar.EncryptSpec | deeptrace-backend/crypto/caesar.py:8-23 | one output character per input character |
| Caesar.Encrypt | deeptrace-backend/crypto/caesar.py:8-23 | the loop gives EncryptSpec |
| Caesar.Decrypt | deeptrace-backend/crypto/caesar.py:26-27 | one output character per input character |
| Caesar.EncryptAt | deeptrace-backend/crypto/caesar.py:11-21 | output character i depends on input character i alone |
| Caesar.AsciiLetters | deeptrace-backend/crypto/caesar.py:11-21 | on ASCII, upper and lower-case letters are rotated within their alphabet and everything else is kept |
| Caesar.UncasedKept | deeptrace-backend/crypto/caesar.py:20-21 | uncased characters are copied whatever the shift |
| Caesar.ShiftPeriod | deeptrace-backend/crypto/caesar.py:14-18 | shifts s and s + 26 give the same ciphertext |
| Caesar.RotateBack | deeptrace-backend/crypto/caesar.py:14-18 | rotating a letter by s and by -s gives it back |
| Caesar.AsciiShiftBack | deeptrace-backend/crypto/caesar.py:26-27 | with only ASCII letters rotated, shifting a character by s and then by -s gives it back |
| Caesar.DecryptEncrypt | deeptrace-backend/crypto/caesar.py:8-27 | for ASCII text decryption undoes encryption |
| Caesar.NonAsciiUpperGarbled | deeptrace-backend/crypto/caesar.py:12-15 | 'É' is encrypted with shift 0 to 'G', and encrypting and decrypting it with shift 3 gives 'G' |
| Caesar.AsciiEncrypt | deeptrace-backend/crypto/caesar.py:8-23 | corrected cipher: one output character per input character |
| Caesar.AsciiDecryptEncrypt | deeptrace-backend/crypto/caesar.py:26-27 | with only A-Z and a-z rotated, decryption undoes encryption on every text |
| Caesar.AsciiEncryptAgrees | deeptrace-backend/crypto/caesar.py:8-23 | on ASCII text the corrected cipher equals the original |
| Scoring.RiskLevel | deeptrace-backend/steganalysis/scoring_engine.py:7-12 | "Clean" exactly when total <= 40, "Suspicious" exactly when 40 < total <= 75, "High Risk" exactly when total > 75 |
| Scoring.AggregateScores | deeptrace-backend/steganalysis/scoring_engine.py:1-24 | the total is the sum of the five scores, the level is RiskLevel of it, and the details echo the inputs |
| Scoring.RiskMonotone | deeptrace-backend/steganalysis/scoring_engine.py:7-12 | a larger total never gets a lower risk level |
| Scoring.ReportMonotone | deeptrace-backend/steganalysis/scoring_engine.py:4-12 | raising one score never lowers the risk level |
| Header.Head | deeptrace-backend/steganalysis/file_pipeline.py:84 | `data[:8]`: at most eight bytes, a prefix of the data, exactly eight when there are that many |
| Header.MatchFrom | deeptrace-backend/steganalysis/file_pipeline.py:86-88 | true exactly when some signature from i on starts the header |
| Header.HeaderScore | deeptrace-backend/steganalysis/file_pipeline.py:76-90 | the score is 0 or 15, and 0 exactly when the data starts with one of the four signatures |
| Header.KnownFormats | deeptrace-backend/steganalysis/file_pipeline.py:77-82 | PDF, PNG, JPEG and ZIP data score 0 |
| Header.EmptyUnknown | deeptrace-backend/steganalysis/file_pipeline.py:90 | empty data scores 15 |
| Header.OnlyHeadMatters | deeptrace-backend/steganalysis/file_pipeline.py:84 | only the first eight bytes decide the score |
| Validators.LowerChar | deeptrace-backend/utils/validators.py:12 | A-Z become a-z and every other character is kept |
| Validators.Lower | deeptrace-backend/utils/validators.py:12 | lower-cases each character in place |
| Validators.LastDot | deeptrace-backend/utils/validators.py:12 | `rsplit('.', 1)`: absent exactly when there is no dot; otherwise a dot with none after it |
| Validators.LastDotUnique | deeptrace-backend/utils/validators.py:12 | the last dot is the only dot with none after it |
| Validators.LastDotOfJoin | deeptrace-backend/utils/validators.py:12 | the last dot of name.ext, for ext without a dot, is the joining dot |
| Validators.AllowedIff | deeptrace-backend/utils/validators.py:6-13 | allowed exactly when the name has a last dot and the lower-cased text after it is one of the nine extensions |
| Validators.AllowedAt | deeptrace-backend/utils/validators.py:10-13 | an allowed extension after the last dot makes the name allowed |
| Validators.ExtensionDecides | deeptrace-backend/utils/validators.py:6-13 | name.ext is allowed exactly when lower(ext) is in the set |
| Validators.CaseInsensitive | deeptrace-backend/utils/validators.py:12 | the case of the extension does not matter |
| Validators.NoExtensionRejected | deeptrace-backend/utils/validators.py:11 | a name without a dot, or ending with a dot, is rejected |
| Validators.ValidateSecret | deeptrace-backend/utils/validators.py:16-22 | the only error is "Secret message cannot be empty" |
| Validators.SecretIff | deeptrace-backend/utils/validators.py:21 | the secret is rejected exactly when it is None or its str() is all whitespace |
| Validators.ValidateCoverText | deeptrace-backend/utils/validators.py:25-40 | accepted exactly when a str of at least two characters; None, non-str and short text each raise their message |
| Validators.ValidateStegoText | deeptrace-backend/utils/validators.py:43-55 | accepted exactly when a str of at least two characters; None, non-str and short text each raise their message |
| Validators.SameRules | deeptrace-backend/utils/validators.py:43-47 | cover and stego text are accepted alike, and whitespace is not stripped |

## Left out

- Prng.Next: draws are computed with exact integers. In JavaScript, `a * state` can exceed 2^53, so the double product loses its low bits. The modelled sequence of draws therefore idealises the browser's.
- `Math.random`, `Date.now` and the random user number are parameters (`entropy`, `ts`, `userNumber`). They are not modelled as sources.
- SHA-256 and its hex rendering, `JSON.stringify`, `JSON.parse` and the decimal rendering of numbers are functions inside an `Oracle` value. LsbWatermark.RoundTrip assumes only that parsing a serialised record gives it back.
- LsbWatermark.Verify: a parsed JSON value is kept only as far as extraction reads it: the record embedding writes, or another value given by the string its `ts` turns into and its `hash` when that is a string. The source leaves `isRaw` out of a parsed result; the model sets it to false.
- The `timestamp`, `userId` and `text` fields that `extractLSB` derives for display are not modelled. Neither are `toLocaleString` and the `json.text` lookup.
- LsbWatermark.EmbedLsb: an absent `secretKey` is read as the empty key. For the generator this matches the source, since both seed from `Math.random`. The source would also hash the string "undefined" with the time stamp, which the model does not capture. The engine never makes such a call.
- LsbWatermark.ExtractLsb: the outer "Failed to decode watermark data." rejection is not modelled. It needs a throw outside the inner `try`, and the modelled operations raise none.
- FileReader, Image, canvas, `getImageData`, `putImageData` and `toDataURL` are not modelled. The image is its RGBA byte array, whose length is a multiple of four.
- LsbWatermark.ExtractLsb: the browser clamps pixel values to 0..255, and the pixel-index array is a `Uint32Array`. Both hold for the modelled values and are not restated.
- The visible, DCT and DWT strategies are not part of this model. `WatermarkEngine` returns the call it would make to them.
- TextUtils.TextToBits: a Python `str` may hold a lone surrogate (U+D800 to U+DFFF), on which `encode("utf-8")` raises `UnicodeEncodeError`. The whitespace, zero-width and image LSB embedders raise it in turn. Dafny's `char` has no surrogates, so the model's strings cannot hold one, and that error is not modelled.
- ImageUtils.TextToBits: the same `UnicodeEncodeError` on a lone surrogate is not modelled, for the same reason.
- TextUtils.TextToBits: a non-string argument is an opaque `PyOther` value. `str()` of arbitrary Python objects is not modelled.
- Caesar: `str.isupper` and `str.islower` are Unicode-aware. They enter as a classification parameter, and only its ASCII behaviour is fixed.
- Validators.Lower: Python's `lower()` is modelled on ASCII letters only. Non-ASCII case folding is not modelled. It matters only for extensions with non-ASCII letters, none of which is allowed.
- ImageLsb: PIL's image loading, `convert` and `save` are not modelled. An image is its mode, its size and its array of pixel tuples.
- Header: of the steganalysis file pipeline, only `header_score` is modelled. Entropy, histogram, chi-square, correlation and file I/O are out of scope.
- Scoring.AggregateScores: the scores are integers. The Python code would also accept floats.

## Findings

| source | as written | input that shows it | evidently intended | confidence | as-written member | corrected member |
|---|---|---|---|---|---|---|
| deeptrace-backend/stego/text/whitespace.py:38-39 | the scan stops at the first eight zeros in a row, at any bit offset | the secret "b" (bits 01100010): its trailing 0 and the marker make eight zeros after 15 bits, and extraction raises "Bit stream length is not byte-aligned" | stop at the first zero byte on a byte boundary, so every secret without NUL round-trips | not executed | Whitespace.EvenLastByteFails | Whitespace.AlignedRoundTrip |
| deeptrace-backend/crypto/caesar.py:12-19 | any character for which `isupper`/`islower` holds is shifted as if it were in A-Z or a-z | "É" (U+00C9) with shift 0 encrypts to "G", and with shift 3 it decrypts back to "G", not "É" | rotate only the ASCII letters and copy every other character | not executed | Caesar.NonAsciiUpperGarbled | Caesar.AsciiDecryptEncrypt |
| deeptrace-frontend/src/utils/watermark/strategies/LSBStrategy.js:73 | `toString(2).padStart(8, "0")` pads to at least eight digits but does not cut longer codes, while extraction reads groups of eight | a text holding "€" (U+20AC): its 14 digits make a 22-digit frame whose terminator ends off a byte boundary, so the scan reads the bytes 10000010 (130) and 10110000 (176) and runs on into the other bits of the image | a fixed width wide enough for every UTF-16 code unit, such as sixteen digits, with a terminator and a scan of that width | not executed | LsbWatermark.WideCharMisread | LsbWatermark.WideRoundTrip |
