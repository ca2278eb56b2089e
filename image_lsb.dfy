/**
 * stego/image/lsb.py and stego/image/capacity.py: sequential LSB
 * steganography in the R, G and B channels of an image, with a 16-bit end
 * marker after the secret's bits.
 */
module ImageLsb {
  import opened Wrappers
  import opened Bits
  import opened PyText
  import Utf8
  import ImageUtils
  import BitSearch

  const NOT_RGB := "Image must be in RGB mode"
  const TOO_LARGE := "Secret message too large for this image"

  /** An image mode: its name and the number of values in each pixel. */
  datatype Mode = Mode(name: string, bands: nat)
  const RGB := Mode("RGB", 3)

  /**
   * An image whose pixel values can be rewritten in place. Pixel (x, y) is
   * `pixels[y * width + x]`, one value per band.
   */
  class Image {
    const mode: Mode
    const width: nat
    const height: nat
    const pixels: array<seq<int>>

    ghost predicate Valid()
      reads this, pixels
    {
      && pixels.Length == width * height
      && mode.bands >= 1
      && (mode.name == "RGB" ==> mode.bands == 3)
      && forall i :: 0 <= i < pixels.Length ==> |pixels[i]| == mode.bands
    }

    constructor (mode: Mode, width: nat, height: nat, data: seq<seq<int>>)
      requires |data| == width * height && mode.bands >= 1
      requires mode.name == "RGB" ==> mode.bands == 3
      requires forall i :: 0 <= i < |data| ==> |data[i]| == mode.bands
      ensures Valid() && fresh(pixels)
      ensures this.mode == mode && this.width == width && this.height == height
      ensures pixels[..] == data
    {
      this.mode := mode;
      this.width := width;
      this.height := height;
      pixels := new seq<int>[|data|](i requires 0 <= i < |data| => data[i]);
    }
  }

  /**
   * `image_capacity`: refuses a non-RGB image; otherwise the number of whole
   * bytes that fit in one LSB of each of the three channels of every pixel.
   */
  function Capacity(mode: Mode, width: nat, height: nat): (r: Result<nat, PyError>)
    ensures mode.name != "RGB" ==> r == Err(ValueError(NOT_RGB))
    ensures mode.name == "RGB" ==> r.Ok?
    ensures r.Ok? ==> 8 * r.value <= 3 * (width * height) < 8 * r.value + 8
  {
    if mode.name != "RGB" then Err(ValueError(NOT_RGB))
    else Ok(width * height * 3 / 8)
  }

  /** A zero-area image holds nothing. */
  lemma CapacityOfEmpty(width: nat, height: nat)
    requires width == 0 || height == 0
    ensures Capacity(RGB, width, height) == Ok(0)
  {
  }

  /** A larger image never holds less. */
  lemma CapacityMonotone(width: nat, height: nat, width': nat, height': nat)
    requires width <= width' && height <= height'
    ensures Capacity(RGB, width, height).value <= Capacity(RGB, width', height').value
  {
    assert width * height <= width' * height by {
      assert (width' - width) * height >= 0;
    }
    assert width' * height <= width' * height' by {
      assert width' * (height' - height) >= 0;
    }
  }

  /** `embed_lsb`'s size test: the payload's whole-byte count may not exceed the capacity. */
  predicate TooLarge(bits: seq<Bit>, capacity: nat)
  {
    |bits| / 8 > capacity
  }

  /** A payload the size test accepts fits in the image's channel LSBs. */
  lemma AcceptedPayloadFits(secret: string, width: nat, height: nat)
    requires !TooLarge(BitSearch.MarkedBits(secret), Capacity(RGB, width, height).value)
    ensures |BitSearch.MarkedBits(secret)| <= 3 * (width * height)
  {
    var n := |Utf8.Encode(secret)|;
    var c := Capacity(RGB, width, height).value;
    var area := 3 * (width * height);
    assert 8 * c <= area;
    assert |BitSearch.MarkedBits(secret)| == 8 * (n + 2);
    assert |BitSearch.MarkedBits(secret)| / 8 == n + 2;
    assert n + 2 <= c;
  }

  predicate AllRgb(pxs: seq<seq<int>>)
  {
    forall i :: 0 <= i < |pxs| ==> |pxs[i]| == 3
  }

  /** Channel number k of the image after embedding: it carries bit k while there are bits left. */
  function EmbedChannel(v: int, k: nat, bits: seq<Bit>): int
  {
    if k < |bits| then SetLsb(v, bits[k]) else v
  }

  /** Pixel number p after embedding; a pixel past the last bit is not rewritten at all. */
  function EmbedPixel(px: seq<int>, p: nat, bits: seq<Bit>): seq<int>
    requires |px| == 3
  {
    if |bits| <= 3 * p then px
    else [EmbedChannel(px[0], 3 * p, bits), EmbedChannel(px[1], 3 * p + 1, bits), EmbedChannel(px[2], 3 * p + 2, bits)]
  }

  /**
   * The pixels after `embed_lsb`, in row-major order: bit k lands in channel
   * k mod 3 of pixel k div 3 with the upper bits of the value kept, and
   * every channel past the last bit is untouched.
   */
  function EmbedAll(pxs: seq<seq<int>>, bits: seq<Bit>): (r: seq<seq<int>>)
    requires AllRgb(pxs)
    ensures |r| == |pxs| && AllRgb(r)
  {
    seq(|pxs|, p requires 0 <= p < |pxs| => EmbedPixel(pxs[p], p, bits))
  }

  /**
   * Channel c of pixel p after embedding: while there are bits left it holds
   * bit 3p + c in its LSB and its upper bits unchanged; past the last bit it
   * is untouched.
   */
  lemma EmbedAllChannel(pxs: seq<seq<int>>, bits: seq<Bit>, p: nat, c: nat)
    requires AllRgb(pxs) && p < |pxs| && c < 3
    ensures var v := EmbedAll(pxs, bits)[p][c];
      if 3 * p + c < |bits| then GetLsb(v) == bits[3 * p + c] && v / 2 == pxs[p][c] / 2
      else v == pxs[p][c]
  {
    var px := pxs[p];
    assert EmbedAll(pxs, bits)[p] == EmbedPixel(px, p, bits);
  }

  /** The channel LSBs of the pixels, R then G then B, pixel after pixel. */
  function LsbStream(pxs: seq<seq<int>>): (bits: seq<Bit>)
    requires AllRgb(pxs)
    ensures |bits| == 3 * |pxs|
  {
    if pxs == [] then []
    else
      var px := pxs[|pxs| - 1];
      LsbStream(pxs[..|pxs| - 1]) + [GetLsb(px[0]), GetLsb(px[1]), GetLsb(px[2])]
  }

  lemma {:induction false} LsbStreamAppend(a: seq<seq<int>>, b: seq<seq<int>>)
    requires AllRgb(a) && AllRgb(b)
    ensures AllRgb(a + b) && LsbStream(a + b) == LsbStream(a) + LsbStream(b)
  {
    if b == [] {
      assert a + b == a;
    } else {
      var b' := b[..|b| - 1];
      assert (a + b)[..|a + b| - 1] == a + b';
      LsbStreamAppend(a, b');
    }
  }

  /** Bit k of the stream is the LSB of channel k mod 3 of pixel k div 3. */
  lemma {:induction false} LsbStreamAt(pxs: seq<seq<int>>, p: nat, c: nat)
    requires AllRgb(pxs) && p < |pxs| && c < 3
    ensures LsbStream(pxs)[3 * p + c] == GetLsb(pxs[p][c])
  {
    var n := |pxs|;
    if p < n - 1 {
      LsbStreamAt(pxs[..n - 1], p, c);
    }
  }

  /** What `extract_lsb` makes of a stream: the text before the first marker, or "" without one. */
  function Recover(stream: seq<Bit>): string
  {
    match BitSearch.BeforeFirst(stream, BitSearch.HIGH_MARKER)
    case Some(bits) => ImageUtils.BitsToText(bits)
    case None => ""
  }

  /** The exception Python raises when a pixel of `bands` values is unpacked into r, g, b. */
  function UnpackError(bands: nat): PyError
    requires bands != 3
  {
    if bands <= 1 then TypeError("cannot unpack non-iterable int object")
    else if bands == 2 then ValueError("not enough values to unpack (expected 3, got 2)")
    else ValueError("too many values to unpack (expected 3)")
  }

  /** `extract_lsb` on pixels of `bands` values each. */
  function ExtractSpec(bands: nat, pxs: seq<seq<int>>): Result<string, PyError>
    requires forall i :: 0 <= i < |pxs| ==> |pxs[i]| == bands
  {
    if pxs == [] then Ok("")
    else if bands != 3 then Err(UnpackError(bands))
    else Ok(Recover(LsbStream(pxs)))
  }

  /** The stream read back from an embedded image starts with the payload. */
  lemma EmbeddedStream(pxs: seq<seq<int>>, bits: seq<Bit>) returns (rest: seq<Bit>)
    requires AllRgb(pxs) && |bits| <= 3 * |pxs|
    ensures LsbStream(EmbedAll(pxs, bits)) == bits + rest
  {
    var e := EmbedAll(pxs, bits);
    var s := LsbStream(e);
    rest := s[|bits|..];
    forall k | 0 <= k < |bits| ensures s[k] == bits[k] {
      LsbStreamAt(e, k / 3, k % 3);
      EmbedAllChannel(pxs, bits, k / 3, k % 3);
      assert 3 * (k / 3) + k % 3 == k;
    }
    assert s == bits + rest;
  }

  /**
   * Extraction after a successful embed gives back the secret: UTF-8 bytes
   * never contain 0xFF, so the marker cannot be found before its own place.
   */
  lemma RoundTrip(pxs: seq<seq<int>>, width: nat, height: nat, secret: string)
    requires AllRgb(pxs) && |pxs| == width * height
    requires !TooLarge(BitSearch.MarkedBits(secret), Capacity(RGB, width, height).value)
    ensures ExtractSpec(3, EmbedAll(pxs, BitSearch.MarkedBits(secret))) == Ok(secret)
  {
    var bits := BitSearch.MarkedBits(secret);
    AcceptedPayloadFits(secret, width, height);
    var rest := EmbeddedStream(pxs, bits);
    RecoverPayload(secret, rest);
  }

  /** Whatever follows the payload in a stream, recovering it gives the secret back. */
  lemma RecoverPayload(secret: string, rest: seq<Bit>)
    ensures Recover(BitSearch.MarkedBits(secret) + rest) == secret
  {
    BitSearch.BeforeMarkedBits(secret, rest);
    ImageUtils.BitsToTextOfTextToBits(secret, []);
    assert ImageUtils.TextToBits(secret) + [] == ImageUtils.TextToBits(secret);
  }

  /** Row y starts at pixel y * width, and the row after it still lies inside the image. */
  lemma RowBound(y: nat, width: nat, height: nat)
    requires y < height
    ensures y * width + width == (y + 1) * width <= height * width
  {
    var k := height - y - 1;
    assert k * width >= 0;
    assert height * width == (y + 1) * width + k * width;
  }

  /**
   * One pass of `embed_lsb`'s inner loop body for pixel p, entered with
   * bits left (`bitIndex` is 3p): R always takes a bit, G and B only while
   * bits remain; returns the advanced bit index.
   */
  method WritePixel(pixels: array<seq<int>>, p: nat, bits: seq<Bit>, bitIndex: nat) returns (next: nat)
    requires p < pixels.Length && |pixels[p]| == 3 && bitIndex == 3 * p < |bits|
    modifies pixels
    ensures pixels[..] == old(pixels[..])[p := EmbedPixel(old(pixels[p]), p, bits)]
    ensures next == if 3 * p + 3 <= |bits| then 3 * p + 3 else |bits|
  {
    var px := pixels[p];
    next := bitIndex;
    var red, green, blue := px[0], px[1], px[2];
    red := SetLsb(red, bits[next]);
    next := next + 1;
    if next < |bits| {
      green := SetLsb(green, bits[next]);
      next := next + 1;
    }
    if next < |bits| {
      blue := SetLsb(blue, bits[next]);
      next := next + 1;
    }
    assert [red, green, blue] == EmbedPixel(px, p, bits);
    pixels[p] := [red, green, blue];
  }

  /**
   * The loops of `embed_lsb`: rows top to bottom, pixels left to right,
   * stopping as soon as every bit is written.
   */
  method WriteBits(pixels: array<seq<int>>, width: nat, height: nat, bits: seq<Bit>)
    requires pixels.Length == width * height && AllRgb(pixels[..])
    modifies pixels
    ensures pixels[..] == EmbedAll(old(pixels[..]), bits)
  {
    ghost var before := pixels[..];
    var n := width * height;
    var bitIndex := 0;
    var p := 0;
    var y := 0;
    while y < height
      invariant 0 <= y <= height && p == y * width && p <= n
      invariant bitIndex == if 3 * p <= |bits| then 3 * p else |bits|
      invariant forall q :: 0 <= q < p ==> pixels[q] == EmbedPixel(before[q], q, bits)
      invariant forall q :: p <= q < n ==> pixels[q] == before[q]
    {
      RowBound(y, width, height);
      var x := 0;
      while x < width
        invariant 0 <= x <= width && p == y * width + x && p <= n
        invariant bitIndex == if 3 * p <= |bits| then 3 * p else |bits|
        invariant forall q :: 0 <= q < p ==> pixels[q] == EmbedPixel(before[q], q, bits)
        invariant forall q :: p <= q < n ==> pixels[q] == before[q]
      {
        if bitIndex >= |bits| {
          EmbedAllFrom(before, bits, pixels[..], p);
          return;
        }
        bitIndex := WritePixel(pixels, p, bits, bitIndex);
        p := p + 1;
        x := x + 1;
      }
      y := y + 1;
    }
    EmbedAllFrom(before, bits, pixels[..], p);
  }

  /** Pixels done up to p, and untouched from p on where no bits remain, are the embedded image. */
  lemma EmbedAllFrom(before: seq<seq<int>>, bits: seq<Bit>, now: seq<seq<int>>, p: nat)
    requires AllRgb(before) && |now| == |before| && p <= |before|
    requires |bits| <= 3 * p || p == |before|
    requires forall q :: 0 <= q < p ==> now[q] == EmbedPixel(before[q], q, bits)
    requires forall q :: p <= q < |before| ==> now[q] == before[q]
    ensures now == EmbedAll(before, bits)
  {
    var after := EmbedAll(before, bits);
    forall q | 0 <= q < |before| ensures now[q] == after[q] {
      assert after[q] == EmbedPixel(before[q], q, bits);
    }
  }

  /**
   * `embed_lsb`: refuses a non-RGB image or an oversized secret before
   * writing anything; otherwise rewrites the pixels in place as `EmbedAll`
   * describes and returns the same image.
   */
  method EmbedLsb(image: Image, secret: string) returns (r: Result<Image, PyError>)
    requires image.Valid()
    modifies image.pixels
    ensures image.Valid()
    ensures image.mode.name != "RGB" ==> r == Err(ValueError(NOT_RGB))
    ensures image.mode.name == "RGB" && TooLarge(BitSearch.MarkedBits(secret), Capacity(image.mode, image.width, image.height).value)
      ==> r == Err(ValueError(TOO_LARGE))
    ensures r.Err? ==> unchanged(image.pixels)
    ensures r.Ok? ==> r.value == image && AllRgb(old(image.pixels[..]))
    ensures r.Ok? ==> image.pixels[..] == EmbedAll(old(image.pixels[..]), BitSearch.MarkedBits(secret))
    ensures image.mode.name == "RGB" && !TooLarge(BitSearch.MarkedBits(secret), Capacity(image.mode, image.width, image.height).value)
      ==> r.Ok?
  {
    var bits := BitSearch.MarkedBits(secret);
    var capacity := Capacity(image.mode, image.width, image.height);
    if capacity.Err? {
      return Err(capacity.error);
    }
    if |bits| / 8 > capacity.value {
      return Err(ValueError(TOO_LARGE));
    }
    WriteBits(image.pixels, image.width, image.height, bits);
    return Ok(image);
  }

  /** The stream of the first p + 1 pixels extends that of the first p by pixel p's three LSBs. */
  lemma LsbStreamStep(pxs: seq<seq<int>>, p: nat)
    requires AllRgb(pxs) && p < |pxs|
    ensures LsbStream(pxs[..p + 1]) == LsbStream(pxs[..p]) + [GetLsb(pxs[p][0]), GetLsb(pxs[p][1]), GetLsb(pxs[p][2])]
  {
    assert pxs[..p + 1][..p] == pxs[..p];
  }

  lemma LsbStreamSplit(pxs: seq<seq<int>>, p: nat)
    requires AllRgb(pxs) && p <= |pxs|
    ensures LsbStream(pxs) == LsbStream(pxs[..p]) + LsbStream(pxs[p..])
  {
    assert pxs == pxs[..p] + pxs[p..];
    LsbStreamAppend(pxs[..p], pxs[p..]);
  }

  /** A marker found in the stream of the first p pixels decides what extraction returns. */
  lemma FoundMarker(pxs: seq<seq<int>>, p: nat, bits: seq<Bit>, m: nat)
    requires AllRgb(pxs) && p <= |pxs| && bits == LsbStream(pxs[..p])
    requires BitSearch.FirstEnd(bits, BitSearch.HIGH_MARKER) == Some(m)
    ensures ExtractSpec(3, pxs) == Ok(ImageUtils.BitsToText(bits[..m - 16]))
  {
    LsbStreamSplit(pxs, p);
    BitSearch.BeforeFirstPrefix(bits, LsbStream(pxs[p..]), BitSearch.HIGH_MARKER, m);
  }

  /**
   * `extract_lsb`: reads the channel LSBs pixel by pixel, looking for the
   * marker after every pixel, and decodes what precedes its first
   * occurrence; pixels that do not unpack into three values raise.
   */
  method ExtractLsb(image: Image) returns (r: Result<string, PyError>)
    requires image.Valid()
    ensures r == ExtractSpec(image.mode.bands, image.pixels[..])
  {
    var pixels := image.pixels;
    ghost var pxs := pixels[..];
    var n := image.width * image.height;
    var bits: seq<Bit> := [];
    var p := 0;
    var y := 0;
    while y < image.height
      invariant 0 <= y <= image.height && p == y * image.width && p <= n
      invariant p > 0 ==> AllRgb(pxs)
      invariant p > 0 ==> bits == LsbStream(pxs[..p])
      invariant p == 0 ==> bits == []
      invariant BitSearch.FirstEnd(bits, BitSearch.HIGH_MARKER).None?
    {
      RowBound(y, image.width, image.height);
      var x := 0;
      while x < image.width
        invariant 0 <= x <= image.width && p == y * image.width + x && p <= n
        invariant p > 0 ==> AllRgb(pxs)
        invariant p > 0 ==> bits == LsbStream(pxs[..p])
        invariant p == 0 ==> bits == []
        invariant BitSearch.FirstEnd(bits, BitSearch.HIGH_MARKER).None?
      {
        var px := pixels[p];
        if |px| != 3 {
          return Err(UnpackError(|px|));
        }
        assert AllRgb(pxs);
        LsbStreamStep(pxs, p);
        bits := bits + [GetLsb(px[0]), GetLsb(px[1]), GetLsb(px[2])];
        p := p + 1;
        x := x + 1;
        match BitSearch.FirstEnd(bits, BitSearch.HIGH_MARKER)
        case Some(m) =>
          FoundMarker(pxs, p, bits, m);
          return Ok(ImageUtils.BitsToText(bits[..m - 16]));
        case None =>
      }
      y := y + 1;
    }
    assert pxs[..p] == pxs;
    return Ok("");
  }
}
