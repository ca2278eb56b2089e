/**
 * The keyed invisible watermark of the frontend (`embedLSB` and
 * `extractLSB` in LSBStrategy.js), on the RGBA bytes of a canvas.
 *
 * Embedding serialises a record {id, ts, hash, text}, spells every UTF-16
 * code unit of the serialisation in binary padded to eight digits, appends
 * a zero byte, and writes bit i into the least significant bit of the red
 * byte of the i-th pixel of a key-seeded shuffle of the pixel indices.
 * Extraction rebuilds the same order, reads red LSBs until a zero byte on a
 * byte boundary or a fixed bound, turns each group of eight bits into a
 * character, and checks the record's hash against SHA-256 of key and time
 * stamp.
 *
 * SHA-256 (FIPS 180-4), number-to-string conversion and JSON serialisation
 * are not modelled: they are handed in as an `Oracle` of functions.
 */
module LsbWatermark {
  import opened Wrappers
  import opened Bits
  import opened Prng

  /** Extraction reads at most this many bits. */
  const MAX_BITS := 100000

  const TOO_SMALL := "Image too small to hold watermark data."

  /** The terminator and the group extraction stops at. */
  const ZERO_BYTE: seq<Bit> := Zeros(8)

  /** "user_" as code units. */
  const USER_PREFIX: seq<CodeUnit> := [117, 115, 101, 114, 95]

  /** The watermark record, as `JSON.stringify` sees it and `JSON.parse` gives it back. */
  datatype Record = Record(id: seq<CodeUnit>, ts: int, hash: seq<CodeUnit>, text: seq<CodeUnit>)

  /**
   * A value `JSON.parse` gives back, seen through what extraction reads of
   * it: the record embedding writes, or any other value, given by the text
   * its `ts` property turns into when added to a string ("undefined" when it
   * has none) and by its `hash` property when that is a string.
   */
  datatype Json =
    | RecordJson(rec: Record)
    | OtherJson(tsText: seq<CodeUnit>, hash: Option<seq<CodeUnit>>)

  /**
   * What `JSON.parse` does with a text: it throws, gives `null` (whose
   * properties cannot be read), or gives a value.
   */
  datatype Parsed = Throws | Null | Value(json: Json)

  /**
   * The library functions the codec calls: the hex digest of SHA-256, the
   * decimal spelling JavaScript uses when a number is added to a string,
   * and a JSON serialiser with its parser.
   */
  datatype Oracle = Oracle(
    sha256: seq<CodeUnit> -> seq<CodeUnit>,
    decimal: int -> seq<CodeUnit>,
    stringify: Record -> seq<CodeUnit>,
    parse: seq<CodeUnit> -> Parsed)

  /**
   * The record `embedLSB` serialises: an id from a random number below
   * 10000 (passed in), the time stamp, SHA-256 of key and time stamp, and
   * the text or "" when it is absent or empty.
   */
  function MakeRecord(o: Oracle, key: seq<CodeUnit>, ts: int, userNumber: nat, text: Option<seq<CodeUnit>>): (r: Record)
    ensures r.ts == ts && r.hash == o.sha256(key + o.decimal(ts))
    ensures r.text == if text.Some? then text.value else []
  {
    Record(USER_PREFIX + o.decimal(userNumber), ts, o.sha256(key + o.decimal(ts)),
           if text.Some? then text.value else [])
  }

  // ---------------------------------------------------------------- framing

  /** `n.toString(2)`: binary digits without leading zeros ("0" for 0). */
  function Binary(n: nat): (b: seq<Bit>)
    ensures 1 <= |b|
  {
    if n < 2 then [n] else Binary(n / 2) + [n % 2]
  }

  /** `padStart(8, "0")`: zeros in front up to eight digits; a longer string is kept whole. */
  function PadStart8(b: seq<Bit>): (r: seq<Bit>)
    ensures |b| < 8 ==> |r| == 8
    ensures |b| >= 8 ==> r == b
    ensures r[|r| - |b|..] == b
  {
    if |b| < 8 then Zeros(8 - |b|) + b else b
  }

  /** The digits one code unit contributes to the bit string. */
  function CharBits(c: CodeUnit): seq<Bit>
  {
    PadStart8(Binary(c))
  }

  /** The digits of every code unit of raw, in order. */
  function FrameChars(raw: seq<CodeUnit>): seq<Bit>
  {
    if raw == [] then [] else CharBits(raw[0]) + FrameChars(raw[1..])
  }

  /** `binaryWatermark`: the digits of the serialised record and the zero-byte terminator. */
  function FrameSpec(raw: seq<CodeUnit>): (bits: seq<Bit>)
    ensures |bits| >= 8 && bits[|bits| - 8..] == ZERO_BYTE
  {
    FrameChars(raw) + ZERO_BYTE
  }

  /** Every code unit of raw fits in eight binary digits. */
  predicate Narrow(raw: seq<CodeUnit>)
  {
    forall i :: 0 <= i < |raw| ==> raw[i] < 256
  }

  lemma FixedZeros(w: nat)
    ensures FixedBits(0, w) == Zeros(w)
  {
    if w > 0 {
      FixedZeros(w - 1);
    }
  }

  /** Below 2^w, the padded binary digits are the w-digit binary expansion. */
  lemma {:induction false} BinaryIsFixed(n: nat, w: nat)
    requires 1 <= w && n < Pow2(w)
    ensures |Binary(n)| <= w
    ensures FixedBits(n, w) == Zeros(w - |Binary(n)|) + Binary(n)
  {
    if n < 2 {
      FixedZeros(w - 1);
    } else {
      assert w >= 2;
      BinaryIsFixed(n / 2, w - 1);
      assert Zeros(w - |Binary(n)|) == Zeros(w - 1 - |Binary(n / 2)|);
    }
  }

  /** A code unit below 256 is spelled as its eight-digit binary expansion. */
  lemma CharBitsNarrow(c: CodeUnit)
    requires c < 256
    ensures CharBits(c) == FixedBits(c, 8)
  {
    Pow2Byte();
    BinaryIsFixed(c, 8);
    var b := Binary(c);
    if |b| == 8 {
      assert Zeros(0) + b == b;
    }
  }

  /** The digits of a narrow code unit are eight and read back as the code unit. */
  lemma CharValue(c: CodeUnit)
    requires c < 256
    ensures |CharBits(c)| == 8 && BitsValue(CharBits(c)) % 0x1_0000 == c
  {
    CharBitsNarrow(c);
    Pow2Byte();
    ValueOfFixedBits(c, 8);
    var v := BitsValue(CharBits(c));
    assert v == c;
    SmallMod(v);
  }

  lemma SmallMod(v: nat)
    requires v < 0x1_0000
    ensures v % 0x1_0000 == v
  {
  }

  /** With every code below 256, the frame has 8 digits per code unit plus the terminator. */
  lemma {:induction false} FrameLength(raw: seq<CodeUnit>)
    requires Narrow(raw)
    ensures |FrameChars(raw)| == 8 * |raw|
    ensures |FrameSpec(raw)| == 8 * |raw| + 8
  {
    if raw != [] {
      CharBitsNarrow(raw[0]);
      FrameLength(raw[1..]);
    }
  }

  /** With every code below 256, digits 8k..8k+8 of the frame spell code unit k. */
  lemma {:induction false} FrameGroup(raw: seq<CodeUnit>, k: nat)
    requires Narrow(raw) && k < |raw|
    ensures |FrameChars(raw)| == 8 * |raw|
    ensures FrameChars(raw)[8 * k..8 * k + 8] == CharBits(raw[k])
  {
    if k == 0 {
      FrameFirst(raw);
    } else {
      NarrowTail(raw);
      FrameGroup(raw[1..], k - 1);
      assert raw[1..][k - 1] == raw[k];
      FrameNext(raw, k);
    }
  }

  lemma FrameFirst(raw: seq<CodeUnit>)
    requires raw != [] && Narrow(raw)
    ensures |FrameChars(raw)| == 8 * |raw| && FrameChars(raw)[0..8] == CharBits(raw[0])
  {
    FrameLength(raw);
    CharValue(raw[0]);
    var g, f := CharBits(raw[0]), FrameChars(raw[1..]);
    assert FrameChars(raw) == g + f;
    assert (g + f)[0..8] == g;
  }

  lemma FrameNext(raw: seq<CodeUnit>, k: nat)
    requires 0 < k < |raw| && raw[0] < 256
    requires |FrameChars(raw[1..])| == 8 * (|raw| - 1)
    requires FrameChars(raw[1..])[8 * (k - 1)..8 * (k - 1) + 8] == CharBits(raw[k])
    ensures |FrameChars(raw)| == 8 * |raw|
    ensures FrameChars(raw)[8 * k..8 * k + 8] == CharBits(raw[k])
  {
    CharValue(raw[0]);
    var g, f := CharBits(raw[0]), FrameChars(raw[1..]);
    assert FrameChars(raw) == g + f;
    GroupShift(g, f, k);
  }

  lemma NarrowTail(raw: seq<CodeUnit>)
    requires Narrow(raw) && raw != []
    ensures raw[0] < 256 && Narrow(raw[1..])
  {
    forall i | 0 <= i < |raw| - 1 ensures raw[1..][i] < 256 {
      assert raw[1..][i] == raw[i + 1];
    }
  }

  /** Group k of g + f, for a group g of eight, is group k - 1 of f. */
  lemma GroupShift(g: seq<Bit>, f: seq<Bit>, k: nat)
    requires |g| == 8 && 0 < k && 8 * k + 8 <= 8 + |f|
    ensures (g + f)[8 * k..8 * k + 8] == f[8 * (k - 1)..8 * (k - 1) + 8]
  {
    var j := 8 * (k - 1);
    assert 8 * k == j + 8;
    assert (g + f)[j + 8..j + 16] == f[j..j + 8];
  }

  // --------------------------------------------------------------- decoding

  /** Where group k of a string of n digits ends: after eight digits, or at the end of the string. */
  function GroupEnd(n: nat, k: nat): (e: nat)
    requires 8 * k < n
    ensures 8 * k < e <= n && e <= 8 * k + 8
    ensures e < 8 * k + 8 ==> e == n
  {
    if 8 * k + 8 <= n then 8 * k + 8 else n
  }

  /** `String.fromCharCode(parseInt(byte, 2))`: the number the digits spell, modulo 2^16. */
  function GroupCode(group: seq<Bit>): CodeUnit
  {
    BitsValue(group) % 0x1_0000
  }

  /**
   * What the decoding loop produces: one code unit per group of eight
   * digits, the last group possibly shorter.
   */
  function DecodeSpec(bits: seq<Bit>): (codes: seq<CodeUnit>)
  {
    seq((|bits| + 7) / 8, k requires 0 <= k < (|bits| + 7) / 8 => GroupCode(bits[8 * k..GroupEnd(|bits|, k)]))
  }

  /** Decoding the frame digits of narrow code units gives the code units back. */
  lemma DecodeFrame(raw: seq<CodeUnit>)
    requires Narrow(raw)
    ensures DecodeSpec(FrameChars(raw)) == raw
  {
    var bits := FrameChars(raw);
    FrameLength(raw);
    assert (|bits| + 7) / 8 == |raw|;
    forall k | 0 <= k < |raw| ensures DecodeSpec(bits)[k] == raw[k] {
      FrameGroup(raw, k);
      CharValue(raw[k]);
      assert GroupEnd(|bits|, k) == 8 * k + 8;
    }
  }

  /**
   * A code unit from 256 up is spelled with more than eight digits, while
   * the scan and the decoder cut fixed groups of eight: the euro sign U+20AC
   * takes 14 digits, so its frame is 22 digits long and the terminator does
   * not end on a byte boundary. The scan then runs past the frame into
   * whatever the image holds, and the first two code units read back are
   * 130 and 176 (the last six digits of the euro sign and two zeros of the
   * terminator).
   */
  lemma WideCharMisread(stream: seq<Bit>)
    requires |FrameSpec([0x20AC])| <= |stream| && stream[..|FrameSpec([0x20AC])|] == FrameSpec([0x20AC])
    ensures |CharBits(0x20AC)| == 14 && |FrameSpec([0x20AC])| == 22
    ensures 16 <= |ScanSpec(stream, 8)|
    ensures DecodeSpec(ScanSpec(stream, 8))[..2] == [130, 176]
  {
    var f := FrameSpec([0x20AC]);
    EuroGroups();
    PrefixSlice(stream, f, 0, 8);
    PrefixSlice(stream, f, 8, 16);
    assert stream[0..8][0] == 1 && stream[8..16][0] == 1;
    ScanPastTwoBytes(stream);
    DecodeFirstTwo(ScanSpec(stream, 8));
  }

  /** The first two bytes of the euro sign's frame, and the code units they decode to. */
  lemma EuroGroups()
    ensures |CharBits(0x20AC)| == 14 && |FrameSpec([0x20AC])| == 22
    ensures FrameSpec([0x20AC])[0..8][0] == 1 && FrameSpec([0x20AC])[8..16][0] == 1
    ensures GroupCode(FrameSpec([0x20AC])[0..8]) == 130 && GroupCode(FrameSpec([0x20AC])[8..16]) == 176
  {
    var c := CharBits(0x20AC);
    var f := FrameSpec([0x20AC]);
    EuroBytes();
    FrameOfOne(0x20AC);
    FourteenThenZeros(c, f);
  }

  /** The euro sign's digits, cut as the scan cuts its frame: eight, then six and two zeros. */
  lemma EuroBytes()
    ensures |CharBits(0x20AC)| == 14
    ensures CharBits(0x20AC)[0..8][0] == 1 && (CharBits(0x20AC)[8..14] + [0, 0])[0] == 1
    ensures GroupCode(CharBits(0x20AC)[0..8]) == 130 && GroupCode(CharBits(0x20AC)[8..14] + [0, 0]) == 176
  {
    var b := EuroDigits();
    GroupValues(b);
  }

  /** The first two code units decoded from at least sixteen digits are those of its first two bytes. */
  lemma DecodeFirstTwo(bits: seq<Bit>)
    requires 16 <= |bits|
    ensures DecodeSpec(bits)[..2] == [GroupCode(bits[0..8]), GroupCode(bits[8..16])]
  {
  }

  /** The frame of a single code unit: its digits and the zero byte. */
  lemma FrameOfOne(c: CodeUnit)
    ensures FrameSpec([c]) == CharBits(c) + ZERO_BYTE
  {
    assert [c][1..] == [];
    assert FrameChars([c]) == CharBits(c) + FrameChars([]);
  }

  /** Fourteen digits and a zero byte: the second byte is the last six digits and two zeros. */
  lemma FourteenThenZeros(b: seq<Bit>, f: seq<Bit>)
    requires |b| == 14 && f == b + ZERO_BYTE
    ensures |f| == 22 && f[0..8] == b[0..8] && f[8..16] == b[8..14] + [0, 0]
  {
  }

  /** When neither of the first two bytes is zero, the scan keeps at least both of them. */
  lemma ScanPastTwoBytes(stream: seq<Bit>)
    requires 16 <= |stream| && stream[0..8] != Zeros(8) && stream[8..16] != Zeros(8)
    ensures 16 <= |ScanSpec(stream, 8)|
    ensures ScanSpec(stream, 8)[0..8] == stream[0..8] && ScanSpec(stream, 8)[8..16] == stream[8..16]
  {
    ScanResult(stream, 8);
    var r := ScanSpec(stream, 8);
    if |r| < 16 {
      assert false;
    }
  }

  /** `(8364).toString(2)`. */
  lemma EuroDigits() returns (b: seq<Bit>)
    ensures b == Binary(0x20AC) == CharBits(0x20AC)
    ensures b == [1, 0, 0, 0, 0, 0, 1, 0, 1, 0, 1, 1, 0, 0]
  {
    assert Binary(1) == [1];
    assert Binary(2) == [1, 0];
    assert Binary(4) == [1, 0, 0];
    assert Binary(8) == [1, 0, 0, 0];
    assert Binary(16) == [1, 0, 0, 0, 0];
    assert Binary(32) == [1, 0, 0, 0, 0, 0];
    assert Binary(65) == [1, 0, 0, 0, 0, 0, 1];
    assert Binary(130) == [1, 0, 0, 0, 0, 0, 1, 0];
    assert Binary(261) == [1, 0, 0, 0, 0, 0, 1, 0, 1];
    assert Binary(522) == [1, 0, 0, 0, 0, 0, 1, 0, 1, 0];
    assert Binary(1045) == [1, 0, 0, 0, 0, 0, 1, 0, 1, 0, 1];
    assert Binary(2091) == [1, 0, 0, 0, 0, 0, 1, 0, 1, 0, 1, 1];
    assert Binary(4182) == [1, 0, 0, 0, 0, 0, 1, 0, 1, 0, 1, 1, 0];
    b := Binary(0x20AC);
  }

  /** The first two groups of eight the scan cuts from the euro sign's frame. */
  lemma GroupValues(b: seq<Bit>)
    requires b == [1, 0, 0, 0, 0, 0, 1, 0, 1, 0, 1, 1, 0, 0]
    ensures GroupCode(b[0..8]) == 130 && GroupCode(b[8..14] + [0, 0]) == 176
  {
    assert b[0..8] == [1, 0, 0, 0, 0, 0, 1, 0];
    assert BitsValue([1]) == 1;
    assert [1, 0][..1] == [1];
    assert BitsValue([1, 0]) == 2;
    assert [1, 0, 0][..2] == [1, 0];
    assert BitsValue([1, 0, 0]) == 4;
    assert [1, 0, 0, 0][..3] == [1, 0, 0];
    assert BitsValue([1, 0, 0, 0]) == 8;
    assert [1, 0, 0, 0, 0][..4] == [1, 0, 0, 0];
    assert BitsValue([1, 0, 0, 0, 0]) == 16;
    assert [1, 0, 0, 0, 0, 0][..5] == [1, 0, 0, 0, 0];
    assert BitsValue([1, 0, 0, 0, 0, 0]) == 32;
    assert [1, 0, 0, 0, 0, 0, 1][..6] == [1, 0, 0, 0, 0, 0];
    assert BitsValue([1, 0, 0, 0, 0, 0, 1]) == 65;
    assert [1, 0, 0, 0, 0, 0, 1, 0][..7] == [1, 0, 0, 0, 0, 0, 1];
    assert BitsValue([1, 0, 0, 0, 0, 0, 1, 0]) == 130;
    assert b[8..14] + [0, 0] == [1, 0, 1, 1, 0, 0, 0, 0];
    assert BitsValue([1]) == 1;
    assert [1, 0][..1] == [1];
    assert BitsValue([1, 0]) == 2;
    assert [1, 0, 1][..2] == [1, 0];
    assert BitsValue([1, 0, 1]) == 5;
    assert [1, 0, 1, 1][..3] == [1, 0, 1];
    assert BitsValue([1, 0, 1, 1]) == 11;
    assert [1, 0, 1, 1, 0][..4] == [1, 0, 1, 1];
    assert BitsValue([1, 0, 1, 1, 0]) == 22;
    assert [1, 0, 1, 1, 0, 0][..5] == [1, 0, 1, 1, 0];
    assert BitsValue([1, 0, 1, 1, 0, 0]) == 44;
    assert [1, 0, 1, 1, 0, 0, 0][..6] == [1, 0, 1, 1, 0, 0];
    assert BitsValue([1, 0, 1, 1, 0, 0, 0]) == 88;
    assert [1, 0, 1, 1, 0, 0, 0, 0][..7] == [1, 0, 1, 1, 0, 0, 0];
    assert BitsValue([1, 0, 1, 1, 0, 0, 0, 0]) == 176;
    SmallMod(130);
    SmallMod(176);
  }

  /** A fixed width of sixteen digits per code unit, wide enough for every code unit. */
  function WideBits(c: CodeUnit): (b: seq<Bit>)
    ensures |b| == 16
  {
    FixedBits(c, 16)
  }

  /** The digits of every code unit of raw at sixteen digits each. */
  function WideFrame(raw: seq<CodeUnit>): (bits: seq<Bit>)
    ensures |bits| == 16 * |raw|
  {
    if raw == [] then [] else WideFrame(raw[..|raw| - 1]) + WideBits(raw[|raw| - 1])
  }

  /** Groups of sixteen digits, one code unit each. */
  function WideDecode(bits: seq<Bit>): (codes: seq<CodeUnit>)
    ensures |codes| == |bits| / 16
  {
    seq(|bits| / 16, k requires 0 <= k < |bits| / 16 => BitsValue(bits[16 * k..16 * k + 16]) % 0x1_0000)
  }

  /** Digits 16k..16k+16 of the wide frame spell code unit k. */
  lemma {:induction false} WideGroup(raw: seq<CodeUnit>, k: nat)
    requires k < |raw|
    ensures WideFrame(raw)[16 * k..16 * k + 16] == WideBits(raw[k])
  {
    var n := |raw| - 1;
    var front := WideFrame(raw[..n]);
    assert WideFrame(raw) == front + WideBits(raw[n]);
    if k < n {
      WideGroup(raw[..n], k);
      assert raw[..n][k] == raw[k];
      assert (front + WideBits(raw[n]))[16 * k..16 * k + 16] == front[16 * k..16 * k + 16];
    } else {
      assert (front + WideBits(raw[n]))[16 * k..16 * k + 16] == WideBits(raw[n]);
    }
  }

  lemma Pow2Sixteen()
    ensures Pow2(16) == 0x1_0000
  {
    Pow2Byte();
    assert Pow2(12) == 4096;
  }

  /** Group k of the wide frame decodes to code unit k. */
  lemma WideAt(raw: seq<CodeUnit>, k: nat)
    requires k < |raw|
    ensures 16 * k + 16 <= |WideFrame(raw)|
    ensures BitsValue(WideFrame(raw)[16 * k..16 * k + 16]) % 0x1_0000 == raw[k]
  {
    assert 16 * k + 16 <= 16 * |raw|;
    Pow2Sixteen();
    WideGroup(raw, k);
    var g := WideFrame(raw)[16 * k..16 * k + 16];
    ValueOfFixedBits(raw[k], 16);
    assert BitsValue(g) == raw[k];
    SmallMod(BitsValue(g));
  }

  /** With sixteen digits per code unit, decoding gives back every text, whatever its code units. */
  lemma WideDecodeFrame(raw: seq<CodeUnit>)
    ensures WideDecode(WideFrame(raw)) == raw
  {
    var bits := WideFrame(raw);
    assert |bits| / 16 == |raw|;
    forall k | 0 <= k < |raw| ensures WideDecode(bits)[k] == raw[k] {
      WideAt(raw, k);
    }
  }

  // --------------------------------------------------------------- scanning

  /**
   * The group widths a scan cuts: eight digits in the source, sixteen in the
   * corrected framing of wide code units.
   */
  predicate GroupWidth(w: nat)
  {
    w == 8 || w == 16
  }

  /** Digits j-w..j are all zero and end on a multiple of w. */
  predicate ZeroGroupAt(bits: seq<Bit>, j: int, w: nat)
  {
    0 < w <= j <= |bits| && j % w == 0 && bits[j - w..j] == Zeros(w)
  }

  /** The first multiple of w from j on where an all-zero group ends. */
  function StopFrom(bits: seq<Bit>, j: nat, w: nat): (r: Option<nat>)
    requires w > 0
    ensures r.Some? ==> j <= r.value <= |bits|
    decreases |bits| - j
  {
    if j > |bits| then None
    else if ZeroGroupAt(bits, j, w) then Some(j)
    else StopFrom(bits, j + w, w)
  }

  /** Between two multiples of w no all-zero group ends. */
  lemma NoGroupInside(bits: seq<Bit>, j: nat, w: nat)
    requires GroupWidth(w) && j % w == 0
    ensures forall m :: j < m < j + w ==> !ZeroGroupAt(bits, m, w)
  {
  }

  /** What StopFrom finds is an all-zero group on a boundary, with none between j and it. */
  lemma {:induction false} StopFromFound(bits: seq<Bit>, j: nat, w: nat)
    requires GroupWidth(w) && j % w == 0 && StopFrom(bits, j, w).Some?
    ensures ZeroGroupAt(bits, StopFrom(bits, j, w).value, w)
    ensures forall m :: j <= m < StopFrom(bits, j, w).value ==> !ZeroGroupAt(bits, m, w)
    decreases |bits| - j
  {
    if !ZeroGroupAt(bits, j, w) {
      StopFromFound(bits, j + w, w);
      NoGroupInside(bits, j, w);
    }
  }

  /** When StopFrom finds nothing, no all-zero group ends on a boundary from j on. */
  lemma {:induction false} StopFromNone(bits: seq<Bit>, j: nat, w: nat)
    requires GroupWidth(w) && j % w == 0 && StopFrom(bits, j, w).None?
    ensures forall m :: j <= m ==> !ZeroGroupAt(bits, m, w)
    decreases |bits| - j
  {
    if j <= |bits| {
      StopFromNone(bits, j + w, w);
      NoGroupInside(bits, j, w);
    }
  }

  /**
   * What a reading loop keeps that cuts groups of w digits: everything
   * before the first aligned all-zero group, or all it read.
   */
  function ScanSpec(stream: seq<Bit>, w: nat): seq<Bit>
    requires w > 0
  {
    match StopFrom(stream, w, w)
    case Some(j) => stream[..j - w]
    case None => stream
  }

  /**
   * The kept bits are a prefix of what was read; they are all of it exactly
   * when no aligned all-zero group occurs, and otherwise the first such
   * group follows them directly.
   */
  lemma ScanResult(stream: seq<Bit>, w: nat)
    requires GroupWidth(w)
    ensures var r := ScanSpec(stream, w);
      && |r| <= |stream| && r == stream[..|r|]
      && (|r| == |stream| <==> forall m :: !ZeroGroupAt(stream, m, w))
      && (|r| < |stream| ==> ZeroGroupAt(stream, |r| + w, w) && forall m :: m < |r| + w ==> !ZeroGroupAt(stream, m, w))
  {
    if StopFrom(stream, w, w).Some? {
      StopFromFound(stream, w, w);
    } else {
      StopFromNone(stream, w, w);
    }
  }

  /** An all-zero group ending at j with none before it is where the scan stops. */
  lemma FirstStopAt(stream: seq<Bit>, j: nat, w: nat)
    requires GroupWidth(w) && ZeroGroupAt(stream, j, w)
    requires forall m :: m < j ==> !ZeroGroupAt(stream, m, w)
    ensures StopFrom(stream, w, w) == Some(j)
  {
    if StopFrom(stream, w, w).Some? {
      StopFromFound(stream, w, w);
    } else {
      StopFromNone(stream, w, w);
    }
  }

  /** Without an aligned all-zero group the scan keeps everything. */
  lemma NoStop(stream: seq<Bit>, w: nat)
    requires GroupWidth(w)
    requires forall m :: m <= |stream| ==> !ZeroGroupAt(stream, m, w)
    ensures StopFrom(stream, w, w) == None
  {
    if StopFrom(stream, w, w).Some? {
      StopFromFound(stream, w, w);
    }
  }

  // ---------------------------------------------------------------- writing

  /** Every pixel index in order names a pixel whose red byte lies inside data of the given size. */
  predicate RedInRange(order: seq<int>, size: nat)
  {
    forall i :: 0 <= i < |order| ==> 0 <= order[i] && 4 * order[i] < size
  }

  /** The first k pixel indices are pairwise different. */
  predicate DistinctPrefix(order: seq<int>, k: nat)
  {
    forall i, j :: 0 <= i < j < k && j < |order| ==> order[i] != order[j]
  }

  /** The embedding loop: bit i into the least significant bit of the red byte of pixel order[i]. */
  function WriteAll(d: seq<Byte>, order: seq<int>, bits: seq<Bit>): (r: seq<Byte>)
    requires |bits| <= |order| && RedInRange(order, |d|)
    ensures |r| == |d|
  {
    if bits == [] then d
    else
      var n := |bits| - 1;
      var prev := WriteAll(d, order, bits[..n]);
      var j := 4 * order[n];
      prev[j := SetLsb(prev[j], bits[n])]
  }

  /** Byte j is none of the red bytes the first k bits go to. */
  predicate Unselected(order: seq<int>, k: nat, j: int)
  {
    forall i :: 0 <= i < k && i < |order| ==> j != 4 * order[i]
  }

  /** No byte has anything but its least significant bit changed. */
  lemma {:induction false} WriteAllHigh(d: seq<Byte>, order: seq<int>, bits: seq<Bit>, j: nat)
    requires |bits| <= |order| && RedInRange(order, |d|) && j < |d|
    ensures WriteAll(d, order, bits)[j] / 2 == d[j] / 2
  {
    if bits != [] {
      WriteAllHigh(d, order, bits[..|bits| - 1], j);
    }
  }

  /** The red byte of pixel order[i] ends with bit i, when the chosen pixels are distinct. */
  lemma {:induction false} WriteAllAt(d: seq<Byte>, order: seq<int>, bits: seq<Bit>, i: nat)
    requires |bits| <= |order| && RedInRange(order, |d|) && DistinctPrefix(order, |bits|) && i < |bits|
    ensures WriteAll(d, order, bits)[4 * order[i]] % 2 == bits[i]
  {
    var n := |bits| - 1;
    if i < n {
      assert order[i] != order[n];
      WriteAllAt(d, order, bits[..n], i);
    }
  }

  /** Every byte that is not the red byte of a chosen pixel is left as it was. */
  lemma {:induction false} WriteAllElsewhere(d: seq<Byte>, order: seq<int>, bits: seq<Bit>, j: nat)
    requires |bits| <= |order| && RedInRange(order, |d|) && j < |d| && Unselected(order, |bits|, j)
    ensures WriteAll(d, order, bits)[j] == d[j]
  {
    if bits != [] {
      WriteAllElsewhere(d, order, bits[..|bits| - 1], j);
    }
  }

  // ---------------------------------------------------------------- reading

  /** The red least significant bits of the first k pixels of order. */
  function Reads(d: seq<Byte>, order: seq<int>, k: nat): (bits: seq<Bit>)
    requires k <= |order| && RedInRange(order, |d|)
    ensures |bits| == k
    ensures forall i :: 0 <= i < k ==> bits[i] == d[4 * order[i]] % 2
  {
    seq(k, i requires 0 <= i < k => d[4 * order[i]] % 2)
  }

  // ----------------------------------------------------------- verification

  /**
   * The result of `extractLSB`: the parsed value with its signature check,
   * or the raw text. `isRaw` is false where the source leaves it out.
   */
  datatype Recovered = Recovered(isValid: bool, isRaw: bool, decoded: Option<Json>, raw: seq<CodeUnit>)

  /** `secretKey + json.ts`: the key followed by the text the value's time stamp turns into. */
  function SignedText(o: Oracle, key: seq<CodeUnit>, json: Json): seq<CodeUnit>
  {
    match json
    case RecordJson(rec) => key + o.decimal(rec.ts)
    case OtherJson(tsText, _) => key + tsText
  }

  /** `json.hash` when it is a string. */
  function HashOf(json: Json): Option<seq<CodeUnit>>
  {
    match json
    case RecordJson(rec) => Some(rec.hash)
    case OtherJson(_, hash) => hash
  }

  /**
   * The verification step: a text that parses to a value other than `null`
   * is decoded, and it is valid exactly when the value's hash is a string
   * equal to SHA-256 of the key and the value's time stamp; a text whose
   * parse throws, or whose time stamp cannot be read from `null`, is handed
   * back raw and marked invalid.
   */
  function Verify(o: Oracle, key: seq<CodeUnit>, text: seq<CodeUnit>): (r: Recovered)
    ensures r.raw == text
    ensures r.isRaw <==> !o.parse(text).Value?
    ensures r.decoded.Some? <==> o.parse(text).Value?
    ensures r.decoded.Some? ==> o.parse(text) == Value(r.decoded.value)
    ensures r.isValid <==> && o.parse(text).Value?
                           && HashOf(o.parse(text).json) == Some(o.sha256(SignedText(o, key, o.parse(text).json)))
  {
    match o.parse(text)
    case Value(json) => Recovered(HashOf(json) == Some(o.sha256(SignedText(o, key, json))), false, Some(json), text)
    case _ => Recovered(false, true, None, text)
  }

  /** A parsed record is valid exactly when its hash is SHA-256 of the key and its own time stamp. */
  lemma VerifyRecord(o: Oracle, key: seq<CodeUnit>, text: seq<CodeUnit>, rec: Record)
    requires o.parse(text) == Value(RecordJson(rec))
    ensures Verify(o, key, text).decoded == Some(RecordJson(rec)) && !Verify(o, key, text).isRaw
    ensures Verify(o, key, text).isValid <==> rec.hash == o.sha256(key + o.decimal(rec.ts))
  {
  }

  /**
   * A value without a string hash, such as the number the text "5" parses
   * to, is decoded but never valid, and it is not marked raw.
   */
  lemma VerifyUnsigned(o: Oracle, key: seq<CodeUnit>, text: seq<CodeUnit>, tsText: seq<CodeUnit>)
    requires o.parse(text) == Value(OtherJson(tsText, None))
    ensures Verify(o, key, text) == Recovered(false, false, Some(OtherJson(tsText, None)), text)
  {
  }

  // ------------------------------------------------------ whole operations

  /** The generator state `new PMRNG(key)` starts from; entropy stands for `Math.random`. */
  function InitialState(key: seq<CodeUnit>, entropy: nat): int
  {
    if key != [] then SeedOf(key) else entropy
  }

  /** The shuffled pixel order for n pixels. */
  function Order(n: nat, key: seq<CodeUnit>, entropy: nat): (order: seq<int>)
    ensures Bijection(order, n)
  {
    ShuffleBijection(n, InitialState(key, entropy));
    Shuffled(Identity(n), InitialState(key, entropy))
  }

  lemma BijectionRed(order: seq<int>, n: nat, size: nat)
    requires Bijection(order, n) && size == 4 * n
    ensures RedInRange(order, size) && DistinctPrefix(order, n)
  {
  }

  datatype Embedded = Embedded(data: seq<Byte>, watermarkData: seq<CodeUnit>)

  /**
   * `embedLSB` on RGBA data: refused when the framed bits outnumber the
   * pixels, otherwise the data with the bits written along the shuffled
   * order, and the serialised record.
   */
  function EmbedSpec(o: Oracle, data: seq<Byte>, key: seq<CodeUnit>, entropy: nat, ts: int, userNumber: nat,
                     text: Option<seq<CodeUnit>>): (r: Result<Embedded, string>)
    requires |data| % 4 == 0
    ensures var raw := o.stringify(MakeRecord(o, key, ts, userNumber, text));
      && (r.Err? <==> |FrameSpec(raw)| > |data| / 4)
      && (r.Err? ==> r.error == TOO_SMALL)
      && (r.Ok? ==> r.value.watermarkData == raw && |r.value.data| == |data|)
  {
    var raw := o.stringify(MakeRecord(o, key, ts, userNumber, text));
    var bits := FrameSpec(raw);
    var n := |data| / 4;
    if |bits| > n then Err(TOO_SMALL)
    else
      var order := Order(n, key, entropy);
      BijectionRed(order, n, |data|);
      Ok(Embedded(WriteAll(data, order, bits), raw))
  }

  /** The text the reading loop and the decoding loop recover from an image, for a given order of pixels. */
  function ReadText(data: seq<Byte>, order: seq<int>): seq<CodeUnit>
    requires |order| == |data| / 4 && RedInRange(order, |data|)
  {
    var n := |data| / 4;
    DecodeSpec(ScanSpec(Reads(data, order, if n < MAX_BITS then n else MAX_BITS), 8))
  }

  /** `extractLSB` on RGBA data: the text read along the key's order, verified against the key. */
  function ExtractSpec(o: Oracle, data: seq<Byte>, key: seq<CodeUnit>, entropy: nat): Recovered
    requires |data| % 4 == 0
  {
    var n := |data| / 4;
    var order := Order(n, key, entropy);
    BijectionRed(order, n, |data|);
    Verify(o, key, ReadText(data, order))
  }

  /** No byte has anything but its least significant bit changed by writing. */
  lemma WriteAllLowOnly(d: seq<Byte>, order: seq<int>, bits: seq<Bit>)
    requires |bits| <= |order| && RedInRange(order, |d|)
    ensures forall j :: 0 <= j < |d| ==> WriteAll(d, order, bits)[j] / 2 == d[j] / 2
  {
    forall j | 0 <= j < |d| ensures WriteAll(d, order, bits)[j] / 2 == d[j] / 2 {
      WriteAllHigh(d, order, bits, j);
    }
  }

  /** After writing, the red byte of pixel order[i] ends with bit i. */
  lemma WriteAllSets(d: seq<Byte>, order: seq<int>, bits: seq<Bit>)
    requires |bits| <= |order| && RedInRange(order, |d|) && DistinctPrefix(order, |bits|)
    ensures forall i :: 0 <= i < |bits| ==> WriteAll(d, order, bits)[4 * order[i]] % 2 == bits[i]
  {
    forall i | 0 <= i < |bits| ensures WriteAll(d, order, bits)[4 * order[i]] % 2 == bits[i] {
      WriteAllAt(d, order, bits, i);
    }
  }

  /** A green, blue or alpha byte is the red byte of no pixel. */
  lemma NotRedUnselected(order: seq<int>, k: nat, j: int)
    requires j % 4 != 0
    ensures Unselected(order, k, j)
  {
    forall i | 0 <= i < k && i < |order| ensures j != 4 * order[i] {
      assert (4 * order[i]) % 4 == 0;
    }
  }

  /** Writing leaves the bytes of unchosen pixels and the green, blue and alpha bytes as they were. */
  lemma WriteAllKeeps(d: seq<Byte>, order: seq<int>, bits: seq<Bit>)
    requires |bits| <= |order| && RedInRange(order, |d|)
    ensures forall j :: 0 <= j < |d| && Unselected(order, |bits|, j) ==> WriteAll(d, order, bits)[j] == d[j]
    ensures forall j :: 0 <= j < |d| && j % 4 != 0 ==> WriteAll(d, order, bits)[j] == d[j]
  {
    forall j | 0 <= j < |d| && Unselected(order, |bits|, j) ensures WriteAll(d, order, bits)[j] == d[j] {
      WriteAllElsewhere(d, order, bits, j);
    }
    forall j | 0 <= j < |d| && j % 4 != 0 ensures WriteAll(d, order, bits)[j] == d[j] {
      NotRedUnselected(order, |bits|, j);
      WriteAllElsewhere(d, order, bits, j);
    }
  }

  /** Embedding changes nothing but the red least significant bits of the chosen pixels. */
  lemma EmbedChanges(o: Oracle, data: seq<Byte>, key: seq<CodeUnit>, entropy: nat, ts: int, userNumber: nat,
                     text: Option<seq<CodeUnit>>)
    requires |data| % 4 == 0 && EmbedSpec(o, data, key, entropy, ts, userNumber, text).Ok?
    ensures var e := EmbedSpec(o, data, key, entropy, ts, userNumber, text).value;
            var bits, order := FrameSpec(e.watermarkData), Order(|data| / 4, key, entropy);
      && |bits| <= |order|
      && (forall j :: 0 <= j < |data| ==> e.data[j] / 2 == data[j] / 2)
      && (forall i :: 0 <= i < |bits| ==> e.data[4 * order[i]] % 2 == bits[i])
      && (forall j :: 0 <= j < |data| && Unselected(order, |bits|, j) ==> e.data[j] == data[j])
      && (forall j :: 0 <= j < |data| && j % 4 != 0 ==> e.data[j] == data[j])
  {
    var e := EmbedSpec(o, data, key, entropy, ts, userNumber, text).value;
    var n := |data| / 4;
    var bits, order := FrameSpec(e.watermarkData), Order(n, key, entropy);
    BijectionRed(order, n, |data|);
    assert e.data == WriteAll(data, order, bits);
    WriteAllLowOnly(data, order, bits);
    WriteAllSets(data, order, bits);
    WriteAllKeeps(data, order, bits);
  }

  /** Digits that are all zero spell the number zero. */
  lemma {:induction false} ZerosValue(b: seq<Bit>)
    requires forall i :: 0 <= i < |b| ==> b[i] == 0
    ensures BitsValue(b) == 0
  {
    if b != [] {
      ZerosValue(b[..|b| - 1]);
    }
  }

  lemma ZeroByteValue()
    ensures BitsValue(ZERO_BYTE) == 0
  {
    ZerosValue(ZERO_BYTE);
  }

  /** A code unit other than 0 below 256 is never spelled as a zero byte. */
  lemma NonZeroChar(c: CodeUnit)
    requires 0 < c < 256
    ensures CharBits(c) != ZERO_BYTE
  {
    CharValue(c);
    ZeroByteValue();
  }

  lemma PrefixSlice(s: seq<Bit>, p: seq<Bit>, lo: nat, hi: nat)
    requires |p| <= |s| && s[..|p|] == p && lo <= hi <= |p|
    ensures s[lo..hi] == p[lo..hi]
  {
    forall i | lo <= i < hi ensures s[i] == p[i] {
      assert s[..|p|][i] == s[i];
    }
  }

  lemma AppendSlice(f: seq<Bit>, z: seq<Bit>, lo: nat, hi: nat)
    requires lo <= hi <= |f|
    ensures (f + z)[lo..hi] == f[lo..hi]
  {
  }

  /** In a stream that starts with a frame, digits 8k..8k+8 spell code unit k. */
  lemma StreamGroup(raw: seq<CodeUnit>, stream: seq<Bit>, k: nat)
    requires Narrow(raw) && k < |raw|
    requires |FrameSpec(raw)| <= |stream| && stream[..|FrameSpec(raw)|] == FrameSpec(raw)
    ensures 8 * k + 8 <= |stream| && stream[8 * k..8 * k + 8] == CharBits(raw[k])
  {
    FrameGroup(raw, k);
    var f := FrameChars(raw);
    AppendSlice(f, ZERO_BYTE, 8 * k, 8 * k + 8);
    PrefixSlice(stream, FrameSpec(raw), 8 * k, 8 * k + 8);
  }

  /** Inside the frame of narrow, non-zero code units there is no zero byte on a byte boundary. */
  lemma NoEarlyZero(raw: seq<CodeUnit>, stream: seq<Bit>, m: int)
    requires forall i :: 0 <= i < |raw| ==> 0 < raw[i] < 256
    requires |FrameSpec(raw)| <= |stream| && stream[..|FrameSpec(raw)|] == FrameSpec(raw)
    requires m < |FrameSpec(raw)|
    ensures !ZeroGroupAt(stream, m, 8)
  {
    if ZeroGroupAt(stream, m, 8) {
      var k := m / 8 - 1;
      assert m == 8 * k + 8;
      FrameLength(raw);
      StreamGroup(raw, stream, k);
      NonZeroChar(raw[k]);
      assert false;
    }
  }

  /** A stream that starts with a frame has the terminator on a byte boundary right after the code units' digits. */
  lemma TerminatorAt(raw: seq<CodeUnit>, stream: seq<Bit>)
    requires Narrow(raw)
    requires |FrameSpec(raw)| <= |stream| && stream[..|FrameSpec(raw)|] == FrameSpec(raw)
    ensures ZeroGroupAt(stream, |FrameSpec(raw)|, 8)
    ensures stream[..|FrameSpec(raw)| - 8] == FrameChars(raw)
  {
    var bits := FrameSpec(raw);
    var l := |bits|;
    FrameLength(raw);
    assert stream[l - 8..l] == bits[l - 8..l];
    assert stream[..l - 8] == bits[..l - 8];
  }

  /** Before the terminator a stream that starts with such a frame has no zero byte on a boundary. */
  lemma NoZeroBefore(raw: seq<CodeUnit>, stream: seq<Bit>)
    requires forall i :: 0 <= i < |raw| ==> 0 < raw[i] < 256
    requires |FrameSpec(raw)| <= |stream| && stream[..|FrameSpec(raw)|] == FrameSpec(raw)
    ensures forall m :: m < |FrameSpec(raw)| ==> !ZeroGroupAt(stream, m, 8)
  {
    forall m | m < |FrameSpec(raw)| ensures !ZeroGroupAt(stream, m, 8) {
      NoEarlyZero(raw, stream, m);
    }
  }

  /**
   * A stream that starts with the frame of narrow, non-zero code units
   * stops exactly at the terminator and keeps the digits of the code units.
   */
  lemma StopsAtTerminator(raw: seq<CodeUnit>, stream: seq<Bit>)
    requires forall i :: 0 <= i < |raw| ==> 0 < raw[i] < 256
    requires |FrameSpec(raw)| <= |stream| && stream[..|FrameSpec(raw)|] == FrameSpec(raw)
    ensures ScanSpec(stream, 8) == FrameChars(raw)
  {
    TerminatorAt(raw, stream);
    NoZeroBefore(raw, stream);
    FirstStopAt(stream, |FrameSpec(raw)|, 8);
  }

  /** Reading the chosen red bits back after writing gives the bits written. */
  lemma ReadBack(d: seq<Byte>, order: seq<int>, bits: seq<Bit>, k: nat)
    requires |bits| <= k <= |order| && RedInRange(order, |d|) && DistinctPrefix(order, |bits|)
    ensures Reads(WriteAll(d, order, bits), order, k)[..|bits|] == bits
  {
    var r := Reads(WriteAll(d, order, bits), order, k);
    forall i | 0 <= i < |bits| ensures r[i] == bits[i] {
      WriteAllAt(d, order, bits, i);
    }
  }

  /**
   * Extraction after embedding, with the same non-empty key and the same
   * image size, returns the serialised record as a valid, parsed watermark,
   * when every code unit of the serialisation is between 1 and 255, the
   * frame fits both the image and the read bound, and parsing undoes
   * serialisation.
   */
  lemma RoundTrip(o: Oracle, data: seq<Byte>, key: seq<CodeUnit>, entropy: nat, entropy': nat, ts: int,
                  userNumber: nat, text: Option<seq<CodeUnit>>)
    requires |data| % 4 == 0 && key != []
    requires var rec := MakeRecord(o, key, ts, userNumber, text);
             var raw := o.stringify(rec);
      && o.parse(raw) == Value(RecordJson(rec))
      && (forall i :: 0 <= i < |raw| ==> 0 < raw[i] < 256)
      && 8 * |raw| + 8 <= |data| / 4
      && 8 * |raw| + 8 <= MAX_BITS
    ensures EmbedSpec(o, data, key, entropy, ts, userNumber, text).Ok?
    ensures var e := EmbedSpec(o, data, key, entropy, ts, userNumber, text).value;
      ExtractSpec(o, e.data, key, entropy') ==
        Recovered(true, false, Some(RecordJson(MakeRecord(o, key, ts, userNumber, text))), e.watermarkData)
  {
    var rec := MakeRecord(o, key, ts, userNumber, text);
    var raw := o.stringify(rec);
    FrameLength(raw);
    var n := |data| / 4;
    assert Order(n, key, entropy) == Order(n, key, entropy');
    var e := EmbedSpec(o, data, key, entropy, ts, userNumber, text).value;
    assert e.data == WriteAll(data, Order(n, key, entropy'), FrameSpec(raw));
    ExtractWritten(o, data, key, entropy', raw);
  }

  /** Extraction from an image the frame of raw was written into, in the same order, decodes raw. */
  lemma ExtractWritten(o: Oracle, data: seq<Byte>, key: seq<CodeUnit>, entropy: nat, raw: seq<CodeUnit>)
    requires |data| % 4 == 0
    requires forall i :: 0 <= i < |raw| ==> 0 < raw[i] < 256
    requires |FrameSpec(raw)| <= |data| / 4 && |FrameSpec(raw)| <= MAX_BITS
    ensures var order := Order(|data| / 4, key, entropy);
      RedInRange(order, |data|) &&
      ExtractSpec(o, WriteAll(data, order, FrameSpec(raw)), key, entropy) == Verify(o, key, raw)
  {
    var n := |data| / 4;
    var order := Order(n, key, entropy);
    BijectionRed(order, n, |data|);
    WrittenText(data, order, raw);
  }

  /** The text read back after the frame of raw was written, in the same order, is raw. */
  lemma WrittenText(d: seq<Byte>, order: seq<int>, raw: seq<CodeUnit>)
    requires forall i :: 0 <= i < |raw| ==> 0 < raw[i] < 256
    requires |order| == |d| / 4 && RedInRange(order, |d|) && DistinctPrefix(order, |order|)
    requires |FrameSpec(raw)| <= |order| && |FrameSpec(raw)| <= MAX_BITS
    ensures ReadText(WriteAll(d, order, FrameSpec(raw)), order) == raw
  {
    var n := |order|;
    var k := if n < MAX_BITS then n else MAX_BITS;
    var written := WriteAll(d, order, FrameSpec(raw));
    assert |written| == |d|;
    ReadFrame(d, order, raw, k);
    assert ScanSpec(Reads(written, order, k), 8) == FrameChars(raw);
    DecodeFrame(raw);
  }

  /** Reading at least a frame's worth of bits after writing the frame gives back the code units' digits. */
  lemma ReadFrame(d: seq<Byte>, order: seq<int>, raw: seq<CodeUnit>, k: nat)
    requires forall i :: 0 <= i < |raw| ==> 0 < raw[i] < 256
    requires |FrameSpec(raw)| <= k <= |order| && RedInRange(order, |d|) && DistinctPrefix(order, k)
    ensures ScanSpec(Reads(WriteAll(d, order, FrameSpec(raw)), order, k), 8) == FrameChars(raw)
  {
    ReadBack(d, order, FrameSpec(raw), k);
    StopsAtTerminator(raw, Reads(WriteAll(d, order, FrameSpec(raw)), order, k));
  }

  // ------------------------------------------------- corrected wide framing

  /** The corrected frame: sixteen digits per code unit, then sixteen zeros as terminator. */
  function WideFrameSpec(raw: seq<CodeUnit>): (bits: seq<Bit>)
    ensures |bits| == 16 * |raw| + 16
  {
    WideFrame(raw) + Zeros(16)
  }

  /** The corrected reading: scan and decode in groups of sixteen digits. */
  function WideReadText(data: seq<Byte>, order: seq<int>): seq<CodeUnit>
    requires |order| == |data| / 4 && RedInRange(order, |data|)
  {
    var n := |data| / 4;
    WideDecode(ScanSpec(Reads(data, order, if n < MAX_BITS then n else MAX_BITS), 16))
  }

  /** Embedding with the corrected frame: refused when the frame outnumbers the pixels. */
  function WideEmbedSpec(o: Oracle, data: seq<Byte>, key: seq<CodeUnit>, entropy: nat, ts: int, userNumber: nat,
                         text: Option<seq<CodeUnit>>): (r: Result<Embedded, string>)
    requires |data| % 4 == 0
    ensures var raw := o.stringify(MakeRecord(o, key, ts, userNumber, text));
      && (r.Err? <==> 16 * |raw| + 16 > |data| / 4)
      && (r.Err? ==> r.error == TOO_SMALL)
      && (r.Ok? ==> r.value.watermarkData == raw && |r.value.data| == |data|)
  {
    var raw := o.stringify(MakeRecord(o, key, ts, userNumber, text));
    var bits := WideFrameSpec(raw);
    var n := |data| / 4;
    if |bits| > n then Err(TOO_SMALL)
    else
      var order := Order(n, key, entropy);
      BijectionRed(order, n, |data|);
      Ok(Embedded(WriteAll(data, order, bits), raw))
  }

  /** Extraction with the corrected reading. */
  function WideExtractSpec(o: Oracle, data: seq<Byte>, key: seq<CodeUnit>, entropy: nat): Recovered
    requires |data| % 4 == 0
  {
    var n := |data| / 4;
    var order := Order(n, key, entropy);
    BijectionRed(order, n, |data|);
    Verify(o, key, WideReadText(data, order))
  }

  /** Sixteen digits spelling a code unit other than 0 are not all zero. */
  lemma WideNonZero(c: CodeUnit)
    requires c != 0
    ensures WideBits(c) != Zeros(16)
  {
    Pow2Sixteen();
    ValueOfFixedBits(c, 16);
    ZerosValue(Zeros(16));
  }

  /** In a stream that starts with a corrected frame, digits 16k..16k+16 spell code unit k. */
  lemma WideStreamGroup(raw: seq<CodeUnit>, stream: seq<Bit>, k: nat)
    requires k < |raw|
    requires |WideFrameSpec(raw)| <= |stream| && stream[..|WideFrameSpec(raw)|] == WideFrameSpec(raw)
    ensures 16 * k + 16 <= |stream| && stream[16 * k..16 * k + 16] == WideBits(raw[k])
  {
    WideGroup(raw, k);
    AppendSlice(WideFrame(raw), Zeros(16), 16 * k, 16 * k + 16);
    PrefixSlice(stream, WideFrameSpec(raw), 16 * k, 16 * k + 16);
  }

  /** Inside the corrected frame of non-zero code units no all-zero group ends on a boundary. */
  lemma WideNoEarlyZero(raw: seq<CodeUnit>, stream: seq<Bit>, m: int)
    requires forall i :: 0 <= i < |raw| ==> raw[i] != 0
    requires |WideFrameSpec(raw)| <= |stream| && stream[..|WideFrameSpec(raw)|] == WideFrameSpec(raw)
    requires m < |WideFrameSpec(raw)|
    ensures !ZeroGroupAt(stream, m, 16)
  {
    if ZeroGroupAt(stream, m, 16) {
      var k := m / 16 - 1;
      assert m == 16 * k + 16;
      WideStreamGroup(raw, stream, k);
      WideNonZero(raw[k]);
      assert false;
    }
  }

  /** A stream that starts with a corrected frame has its terminator on a boundary right after the code units. */
  lemma WideTerminatorAt(raw: seq<CodeUnit>, stream: seq<Bit>)
    requires |WideFrameSpec(raw)| <= |stream| && stream[..|WideFrameSpec(raw)|] == WideFrameSpec(raw)
    ensures ZeroGroupAt(stream, |WideFrameSpec(raw)|, 16)
    ensures stream[..|WideFrameSpec(raw)| - 16] == WideFrame(raw)
  {
    var bits := WideFrameSpec(raw);
    var l := |bits|;
    assert l % 16 == 0;
    PrefixSlice(stream, bits, l - 16, l);
    assert bits[l - 16..l] == Zeros(16);
    PrefixSlice(stream, bits, 0, l - 16);
    assert bits[..l - 16] == WideFrame(raw);
  }

  /**
   * A stream that starts with the corrected frame of non-zero code units
   * stops exactly at the terminator and keeps the code units' digits.
   */
  lemma WideStopsAtTerminator(raw: seq<CodeUnit>, stream: seq<Bit>)
    requires forall i :: 0 <= i < |raw| ==> raw[i] != 0
    requires |WideFrameSpec(raw)| <= |stream| && stream[..|WideFrameSpec(raw)|] == WideFrameSpec(raw)
    ensures ScanSpec(stream, 16) == WideFrame(raw)
  {
    WideTerminatorAt(raw, stream);
    forall m | m < |WideFrameSpec(raw)| ensures !ZeroGroupAt(stream, m, 16) {
      WideNoEarlyZero(raw, stream, m);
    }
    FirstStopAt(stream, |WideFrameSpec(raw)|, 16);
  }

  /** The text read back with the corrected reading after the corrected frame of raw was written is raw. */
  lemma WideWrittenText(d: seq<Byte>, order: seq<int>, raw: seq<CodeUnit>)
    requires forall i :: 0 <= i < |raw| ==> raw[i] != 0
    requires |order| == |d| / 4 && RedInRange(order, |d|) && DistinctPrefix(order, |order|)
    requires |WideFrameSpec(raw)| <= |order| && |WideFrameSpec(raw)| <= MAX_BITS
    ensures WideReadText(WriteAll(d, order, WideFrameSpec(raw)), order) == raw
  {
    var n := |order|;
    var k := if n < MAX_BITS then n else MAX_BITS;
    var written := WriteAll(d, order, WideFrameSpec(raw));
    assert |written| == |d|;
    ReadBack(d, order, WideFrameSpec(raw), k);
    WideStopsAtTerminator(raw, Reads(written, order, k));
    assert ScanSpec(Reads(written, order, k), 16) == WideFrame(raw);
    WideDecodeFrame(raw);
  }

  /**
   * With the corrected framing and reading, extraction after embedding with
   * the same non-empty key and image size returns the serialised record as
   * a valid, parsed watermark for every serialisation without a NUL code
   * unit, wide code units included, when the frame fits the image and the
   * read bound and parsing undoes serialisation.
   */
  lemma WideRoundTrip(o: Oracle, data: seq<Byte>, key: seq<CodeUnit>, entropy: nat, entropy': nat, ts: int,
                      userNumber: nat, text: Option<seq<CodeUnit>>)
    requires |data| % 4 == 0 && key != []
    requires var rec := MakeRecord(o, key, ts, userNumber, text);
             var raw := o.stringify(rec);
      && o.parse(raw) == Value(RecordJson(rec))
      && (forall i :: 0 <= i < |raw| ==> raw[i] != 0)
      && 16 * |raw| + 16 <= |data| / 4
      && 16 * |raw| + 16 <= MAX_BITS
    ensures WideEmbedSpec(o, data, key, entropy, ts, userNumber, text).Ok?
    ensures var e := WideEmbedSpec(o, data, key, entropy, ts, userNumber, text).value;
      WideExtractSpec(o, e.data, key, entropy') ==
        Recovered(true, false, Some(RecordJson(MakeRecord(o, key, ts, userNumber, text))), e.watermarkData)
  {
    var rec := MakeRecord(o, key, ts, userNumber, text);
    var raw := o.stringify(rec);
    var n := |data| / 4;
    var order := Order(n, key, entropy');
    assert Order(n, key, entropy) == order;
    BijectionRed(order, n, |data|);
    var e := WideEmbedSpec(o, data, key, entropy, ts, userNumber, text).value;
    assert e.data == WriteAll(data, order, WideFrameSpec(raw));
    WideWrittenText(data, order, raw);
  }

  // ---------------------------------------------------------------- methods

  /** `new Uint32Array(n)` filled with 0, 1, ..., n - 1. */
  method IndexArray(n: nat) returns (indices: array<int>)
    ensures fresh(indices) && indices[..] == Identity(n)
  {
    indices := new int[n];
    var i := 0;
    while i < n
      invariant 0 <= i <= n
      invariant forall k :: 0 <= k < i ==> indices[k] == k
    {
      indices[i] := i;
      i := i + 1;
    }
  }

  /** The pixel indices in the order of a generator seeded from the key, as both operations build them. */
  method ShuffledIndices(totalPixels: nat, secretKey: seq<CodeUnit>, entropy: nat) returns (indices: array<int>)
    requires entropy < M - 1
    ensures fresh(indices) && indices[..] == Order(totalPixels, secretKey, entropy)
  {
    indices := IndexArray(totalPixels);
    var rng := new Pmrng(secretKey, entropy);
    rng.Shuffle(indices);
  }

  /** The frame of the code units from i on starts with the digits of code unit i. */
  lemma FrameCharsFrom(raw: seq<CodeUnit>, i: nat)
    requires i < |raw|
    ensures FrameChars(raw[i..]) == CharBits(raw[i]) + FrameChars(raw[i + 1..])
  {
    assert raw[i..][1..] == raw[i + 1..];
  }

  /** One round of the framing loop keeps what is built followed by the rest equal to the whole. */
  lemma FrameStep(raw: seq<CodeUnit>, i: nat, built: seq<Bit>)
    requires i < |raw| && built + FrameChars(raw[i..]) == FrameChars(raw)
    ensures (built + CharBits(raw[i])) + FrameChars(raw[i + 1..]) == FrameChars(raw)
  {
    FrameCharsFrom(raw, i);
    AppendStep(built, CharBits(raw[i]), FrameChars(raw[i + 1..]), FrameChars(raw[i..]), FrameChars(raw));
  }

  lemma AppendStep<T>(built: seq<T>, c: seq<T>, rest: seq<T>, tail: seq<T>, whole: seq<T>)
    requires built + tail == whole && tail == c + rest
    ensures (built + c) + rest == whole
  {
    assert (built + c) + rest == built + (c + rest);
  }

  /** The framing loop of `embedLSB`: the digits of each code unit in order, then the terminator. */
  method Frame(rawData: seq<CodeUnit>) returns (binaryWatermark: seq<Bit>)
    ensures binaryWatermark == FrameSpec(rawData)
  {
    binaryWatermark := [];
    var i := 0;
    while i < |rawData|
      invariant 0 <= i <= |rawData|
      invariant binaryWatermark + FrameChars(rawData[i..]) == FrameChars(rawData)
    {
      FrameStep(rawData, i, binaryWatermark);
      binaryWatermark := binaryWatermark + CharBits(rawData[i]);
      i := i + 1;
    }
    assert rawData[i..] == [];
    binaryWatermark := binaryWatermark + ZERO_BYTE;
  }

  /** The embedding loop: bit i into the red least significant bit of pixel indices[i]. */
  method WriteBits(data: array<Byte>, indices: seq<int>, bits: seq<Bit>)
    requires |bits| <= |indices| && RedInRange(indices, data.Length)
    modifies data
    ensures data[..] == WriteAll(old(data[..]), indices, bits)
  {
    ghost var start := data[..];
    var i := 0;
    while i < |bits|
      invariant 0 <= i <= |bits|
      invariant data[..] == WriteAll(start, indices, bits[..i])
    {
      assert bits[..i + 1][..i] == bits[..i];
      var pixelIndex := indices[i];
      var dataIndex := pixelIndex * 4;
      data[dataIndex] := SetLsb(data[dataIndex], bits[i]);
      i := i + 1;
    }
    assert bits[..i] == bits;
  }

  /**
   * The reading loop of `extractLSB`: red least significant bits in the
   * shuffled order, at most maxBits of them; at every byte boundary a zero
   * byte ends the loop and is dropped.
   */
  method ScanBits(data: array<Byte>, indices: seq<int>, maxBits: nat) returns (binaryString: seq<Bit>)
    requires maxBits <= |indices| && RedInRange(indices, data.Length)
    ensures binaryString == ScanSpec(Reads(data[..], indices, maxBits), 8)
  {
    ghost var stream := Reads(data[..], indices, maxBits);
    binaryString := [];
    var i := 0;
    while i < maxBits
      invariant 0 <= i <= maxBits
      invariant binaryString == stream[..i]
      invariant forall m :: m <= i ==> !ZeroGroupAt(stream, m, 8)
    {
      var pixelIndex := indices[i];
      var dataIndex := pixelIndex * 4;
      var bit := GetLsb(data[dataIndex]);
      binaryString := binaryString + [bit];
      i := i + 1;
      assert binaryString == stream[..i];
      if |binaryString| % 8 == 0 {
        var lastByte := binaryString[|binaryString| - 8..];
        assert stream[i - 8..i] == lastByte;
        if lastByte == ZERO_BYTE {
          FirstStopAt(stream, i, 8);
          binaryString := binaryString[..|binaryString| - 8];
          return;
        }
      }
      NoZeroByteUpTo(stream, i);
    }
    NoStop(stream, 8);
  }

  /** One more digit read that does not complete a zero byte on a byte boundary keeps the scan going. */
  lemma NoZeroByteUpTo(stream: seq<Bit>, i: nat)
    requires 0 < i <= |stream|
    requires forall m :: m < i ==> !ZeroGroupAt(stream, m, 8)
    requires i % 8 == 0 ==> stream[i - 8..i] != ZERO_BYTE
    ensures forall m :: m <= i ==> !ZeroGroupAt(stream, m, 8)
  {
  }

  /** The decoding loop: groups of eight digits, the last one possibly shorter, one code unit each. */
  method DecodeText(binaryString: seq<Bit>) returns (text: seq<CodeUnit>)
    ensures text == DecodeSpec(binaryString)
  {
    text := [];
    var i := 0;
    while i < |binaryString|
      invariant i == 8 * |text|
      invariant |text| <= (|binaryString| + 7) / 8
      invariant text == DecodeSpec(binaryString)[..|text|]
      decreases |binaryString| - i
    {
      GroupCount(|binaryString|, |text|);
      var end := if i + 8 <= |binaryString| then i + 8 else |binaryString|;
      var byte := binaryString[i..end];
      text := text + [BitsValue(byte) % 0x1_0000];
      i := i + 8;
    }
    GroupCount(|binaryString|, |text|);
  }

  /** t groups are fewer than all of a string of n digits exactly when 8t < n. */
  lemma GroupCount(n: nat, t: nat)
    ensures 8 * t < n ==> t < (n + 7) / 8
    ensures 8 * t >= n ==> (n + 7) / 8 <= t
  {
    var q := (n + 7) / 8;
    assert 8 * q <= n + 7 < 8 * q + 8;
  }

  /**
   * `embedLSB` on the RGBA bytes of the canvas. The time stamp, the random
   * user number and, for an empty key, the generator's random seed are
   * inputs. A frame too long for the image is refused before any byte is
   * written.
   */
  method EmbedLsb(o: Oracle, data: array<Byte>, secretKey: seq<CodeUnit>, text: Option<seq<CodeUnit>>,
                  timestamp: int, userNumber: nat, entropy: nat) returns (r: Result<seq<CodeUnit>, string>)
    requires data.Length % 4 == 0 && entropy < M - 1
    modifies data
    ensures var spec := EmbedSpec(o, old(data[..]), secretKey, entropy, timestamp, userNumber, text);
      && (spec.Err? ==> r == Err(spec.error) && data[..] == old(data[..]))
      && (spec.Ok? ==> r == Ok(spec.value.watermarkData) && data[..] == spec.value.data)
  {
    var rawData := o.stringify(MakeRecord(o, secretKey, timestamp, userNumber, text));
    var binaryWatermark := Frame(rawData);
    var totalPixels := data.Length / 4;
    if |binaryWatermark| > totalPixels {
      return Err(TOO_SMALL);
    }
    var indices := ShuffledIndices(totalPixels, secretKey, entropy);
    BijectionRed(indices[..], totalPixels, data.Length);
    WriteBits(data, indices[..], binaryWatermark);
    return Ok(rawData);
  }

  /** `extractLSB` on the RGBA bytes of the canvas; entropy seeds the generator when the key is empty. */
  method ExtractLsb(o: Oracle, data: array<Byte>, secretKey: seq<CodeUnit>, entropy: nat) returns (r: Recovered)
    requires data.Length % 4 == 0 && entropy < M - 1
    ensures r == ExtractSpec(o, data[..], secretKey, entropy)
  {
    var totalPixels := data.Length / 4;
    var indices := ShuffledIndices(totalPixels, secretKey, entropy);
    BijectionRed(indices[..], totalPixels, data.Length);
    var maxBits := if totalPixels < MAX_BITS then totalPixels else MAX_BITS;
    var binaryString := ScanBits(data, indices[..], maxBits);
    var text := DecodeText(binaryString);
    r := Verify(o, secretKey, text);
  }
}
