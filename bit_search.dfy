/**
 * Finding an end marker in a growing bit string: the extractors append bits
 * one at a time and stop as soon as the bits read so far end with a marker
 * (`bits.endswith(marker)`, or `marker in bits` checked after every pixel).
 */
module BitSearch {
  import opened Wrappers
  import opened Bits
  import Utf8
  import ImageUtils

  /** The marker ends at position m of bits: `bits[:m].endswith(pat)`. */
  predicate EndsAt(bits: seq<Bit>, pat: seq<Bit>, m: nat)
  {
    |pat| <= m <= |bits| && bits[m - |pat|..m] == pat
  }

  function FirstEndFrom(bits: seq<Bit>, pat: seq<Bit>, m: nat): (r: Option<nat>)
    ensures r.Some? ==> m <= r.value && |pat| <= r.value <= |bits|
    decreases |bits| - m
  {
    if m > |bits| then None
    else if EndsAt(bits, pat, m) then Some(m)
    else FirstEndFrom(bits, pat, m + 1)
  }

  /** The search from m finds the least end at or after m, or reports that there is none. */
  lemma {:induction false} FirstEndFromSpec(bits: seq<Bit>, pat: seq<Bit>, m: nat)
    ensures var r := FirstEndFrom(bits, pat, m);
      && (r.Some? ==> EndsAt(bits, pat, r.value) && forall j :: m <= j < r.value ==> !EndsAt(bits, pat, j))
      && (r.None? ==> forall j :: m <= j ==> !EndsAt(bits, pat, j))
    decreases |bits| - m
  {
    var r := FirstEndFrom(bits, pat, m);
    if m > |bits| {
      forall j | m <= j ensures !EndsAt(bits, pat, j) {}
    } else if !EndsAt(bits, pat, m) {
      FirstEndFromSpec(bits, pat, m + 1);
      assert r == FirstEndFrom(bits, pat, m + 1);
      var bound := if r.Some? then r.value else |bits| + 1;
      forall j | m <= j < bound ensures !EndsAt(bits, pat, j) {}
    }
  }

  /** The shortest prefix of bits that ends with pat, given by its length. */
  function FirstEnd(bits: seq<Bit>, pat: seq<Bit>): (r: Option<nat>)
    ensures r.Some? ==> |pat| <= r.value <= |bits|
  {
    FirstEndFrom(bits, pat, 0)
  }

  /** FirstEnd gives the least m such that bits[..m] ends with pat, and None only when there is no such m. */
  lemma FirstEndSpec(bits: seq<Bit>, pat: seq<Bit>)
    ensures var r := FirstEnd(bits, pat);
      && (r.Some? ==> EndsAt(bits, pat, r.value) && forall j :: 0 <= j < r.value ==> !EndsAt(bits, pat, j))
      && (r.None? ==> forall j :: 0 <= j ==> !EndsAt(bits, pat, j))
  {
    FirstEndFromSpec(bits, pat, 0);
  }

  /** A found end and no end before it pin FirstEnd down; no end anywhere makes it None. */
  lemma FirstEndIs(bits: seq<Bit>, pat: seq<Bit>, m: nat)
    requires EndsAt(bits, pat, m) && forall j :: 0 <= j < m ==> !EndsAt(bits, pat, j)
    ensures FirstEnd(bits, pat) == Some(m)
  {
    FirstEndSpec(bits, pat);
  }

  /** Reading more bits never moves a marker already found. */
  lemma FirstEndPrefix(u: seq<Bit>, w: seq<Bit>, pat: seq<Bit>)
    requires FirstEnd(u, pat).Some?
    ensures FirstEnd(u + w, pat) == FirstEnd(u, pat)
  {
    FirstEndSpec(u, pat);
    var m := FirstEnd(u, pat).value;
    assert (u + w)[m - |pat|..m] == u[m - |pat|..m];
    forall j | 0 <= j < m ensures !EndsAt(u + w, pat, j) {
      assert !EndsAt(u, pat, j);
      if |pat| <= j {
        assert (u + w)[j - |pat|..j] == u[j - |pat|..j];
      }
    }
    FirstEndIs(u + w, pat, m);
  }

  /** Appending bits that do not complete a marker keeps "no marker yet". */
  lemma NoEndExtend(u: seq<Bit>, w: seq<Bit>, pat: seq<Bit>)
    requires forall j :: 0 <= j ==> !EndsAt(u, pat, j)
    requires forall j :: |u| < j <= |u + w| ==> !EndsAt(u + w, pat, j)
    ensures forall j :: 0 <= j ==> !EndsAt(u + w, pat, j)
  {
    forall j | 0 <= j <= |u| ensures !EndsAt(u + w, pat, j) {
      assert !EndsAt(u, pat, j);
      if |pat| <= j {
        assert (u + w)[j - |pat|..j] == u[j - |pat|..j];
      }
    }
  }

  /** A bit string one bit longer (or no longer) than one without a marker has one exactly when it ends with it. */
  lemma FirstEndGrow(u: seq<Bit>, w: seq<Bit>, pat: seq<Bit>)
    requires FirstEnd(u, pat).None? && |w| <= 1
    ensures FirstEnd(u + w, pat) == if EndsAt(u + w, pat, |u + w|) then Some(|u + w|) else None
  {
    FirstEndSpec(u, pat);
    FirstEndSpec(u + w, pat);
    forall j | 0 <= j < |u + w| ensures !EndsAt(u + w, pat, j) {
      assert !EndsAt(u, pat, j);
      if |pat| <= j {
        assert (u + w)[j - |pat|..j] == u[j - |pat|..j];
      }
    }
    if EndsAt(u + w, pat, |u + w|) {
      FirstEndIs(u + w, pat, |u + w|);
    }
  }

  /** The bits in front of the first occurrence of pat (`bits.split(pat)[0]`), if there is one. */
  function BeforeFirst(bits: seq<Bit>, pat: seq<Bit>): (r: Option<seq<Bit>>)
    ensures r.Some? ==> |r.value| + |pat| <= |bits| && r.value == bits[..|r.value|]
  {
    match FirstEnd(bits, pat)
    case Some(m) => Some(bits[..m - |pat|])
    case None => None
  }

  /** Once pat shows up, bits read later cannot change what precedes its first occurrence. */
  lemma BeforeFirstPrefix(bits: seq<Bit>, rest: seq<Bit>, pat: seq<Bit>, m: nat)
    requires FirstEnd(bits, pat) == Some(m)
    ensures BeforeFirst(bits + rest, pat) == Some(bits[..m - |pat|])
  {
    FirstEndPrefix(bits, rest, pat);
    assert (bits + rest)[..m - |pat|] == bits[..m - |pat|];
  }

  /** The 16-bit end marker `1111111111111110` of the image and zero-width codecs. */
  const HIGH_MARKER: seq<Bit> := [1, 1, 1, 1, 1, 1, 1, 1, 1, 1, 1, 1, 1, 1, 1, 0]

  /** The bits the image and zero-width codecs hide: `text_to_bits(secret) + END_MARKER`. */
  function MarkedBits(secret: string): (bits: seq<Bit>)
    ensures |bits| == 8 * |Utf8.Encode(secret)| + 16
  {
    ImageUtils.TextToBits(secret) + HIGH_MARKER
  }

  lemma MarkerShape()
    ensures |HIGH_MARKER| == 16 && HIGH_MARKER[15] == 0
    ensures forall d :: 0 <= d < 15 ==> HIGH_MARKER[d] == 1
  {
    forall d | 0 <= d < 15 ensures HIGH_MARKER[d] == 1 {
      assert HIGH_MARKER[..15] == seq(15, _ => 1);
      assert HIGH_MARKER[d] == HIGH_MARKER[..15][d];
    }
  }

  /** A number below 2^w - 1 has a zero among its w binary digits; u is the place of one. */
  lemma {:induction false} ZeroDigit(n: nat, w: nat) returns (u: nat)
    requires n < Pow2(w) - 1
    ensures u < w && FixedBits(n, w)[u] == 0
  {
    var bits := FixedBits(n, w);
    assert bits == FixedBits(n / 2, w - 1) + [n % 2];
    if n % 2 == 1 {
      u := ZeroDigit(n / 2, w - 1);
    } else {
      u := w - 1;
    }
  }

  /**
   * Any fifteen consecutive bits of a byte string cover one whole byte, so
   * when no byte is 0xFF one of them, at i + d, is a zero.
   */
  lemma ZeroInFifteen(bs: seq<Byte>, i: nat) returns (d: nat)
    requires forall k :: 0 <= k < |bs| ==> bs[k] != 0xFF
    requires i + 15 <= 8 * |bs|
    ensures d < 15 && BytesToBits(bs)[i + d] == 0
  {
    var k := (i + 7) / 8;
    assert i <= 8 * k <= i + 7 && k < |bs|;
    var b := bs[k];
    Pow2Byte();
    var u := ZeroDigit(b, 8);
    BytesToBitsAt(bs, k, u);
    d := 8 * k + u - i;
  }

  /** One position where the bits differ from the pattern rules out a match there. */
  lemma Mismatch(bits: seq<Bit>, pat: seq<Bit>, i: nat, k: nat)
    requires i + |pat| <= |bits| && k < |pat| && bits[i + k] != pat[k]
    ensures !EndsAt(bits, pat, i + |pat|)
  {
    assert bits[i..i + |pat|][k] == bits[i + k];
  }

  /** A window starting inside the text holds a zero of the text where the marker has a one. */
  lemma NoMarkerInText(bs: seq<Byte>, marker: seq<Bit>, rest: seq<Bit>, i: nat)
    requires forall k :: 0 <= k < |bs| ==> bs[k] != 0xFF
    requires |marker| == 16 && forall d :: 0 <= d < 15 ==> marker[d] == 1
    requires i + 15 <= 8 * |bs|
    ensures !EndsAt(BytesToBits(bs) + marker + rest, marker, i + 16)
  {
    var t := BytesToBits(bs);
    var front := t + marker;
    var d := ZeroInFifteen(bs, i);
    assert front[i + d] == t[i + d];
    Mismatch(front + rest, marker, i, d);
  }

  /** A window starting in the last fourteen bits of the text ends on a one of the marker where it needs the zero. */
  lemma NoMarkerAcross(t: seq<Bit>, marker: seq<Bit>, rest: seq<Bit>, i: nat)
    requires |marker| == 16 && marker[15] == 0 && forall d :: 0 <= d < 15 ==> marker[d] == 1
    requires i < |t| < i + 15
    ensures !EndsAt(t + marker + rest, marker, i + 16)
  {
    var front := t + marker;
    var e := i + 15 - |t|;
    assert front[i + 15] == marker[e];
    Mismatch(front + rest, marker, i, 15);
  }

  lemma NoEarlyMarker(bs: seq<Byte>, marker: seq<Bit>, rest: seq<Bit>, j: nat)
    requires forall k :: 0 <= k < |bs| ==> bs[k] != 0xFF
    requires |marker| == 16 && marker[15] == 0 && forall d :: 0 <= d < 15 ==> marker[d] == 1
    requires j < 8 * |bs| + 16
    ensures !EndsAt(BytesToBits(bs) + marker + rest, marker, j)
  {
    if 16 <= j {
      if j - 16 + 15 <= 8 * |bs| {
        NoMarkerInText(bs, marker, rest, j - 16);
      } else {
        NoMarkerAcross(BytesToBits(bs), marker, rest, j - 16);
      }
    }
  }

  /**
   * No UTF-8 byte is 0xFF (RFC 3629 section 1), so fifteen ones in a row
   * never occur inside the bits of encoded text, and the first end marker
   * is the one written right behind the text.
   */
  lemma MarkerAfterText(s: string, rest: seq<Bit>)
    ensures FirstEnd(MarkedBits(s) + rest, HIGH_MARKER) == Some(|MarkedBits(s)|)
  {
    var bs := Utf8.Encode(s);
    MarkerShape();
    var bits := BytesToBits(bs) + HIGH_MARKER + rest;
    assert MarkedBits(s) + rest == bits;
    var n := 8 * |bs|;
    forall j | 0 <= j < n + 16 ensures !EndsAt(bits, HIGH_MARKER, j) {
      NoEarlyMarker(bs, HIGH_MARKER, rest, j);
    }
    assert bits[n..n + 16] == HIGH_MARKER;
    FirstEndIs(bits, HIGH_MARKER, n + 16);
  }

  /** Reading back marked text, with anything after it, gives the bits of the text. */
  lemma BeforeMarkedBits(s: string, rest: seq<Bit>)
    ensures BeforeFirst(MarkedBits(s) + rest, HIGH_MARKER) == Some(ImageUtils.TextToBits(s))
  {
    MarkerAfterText(s, rest);
    var text := ImageUtils.TextToBits(s);
    assert (MarkedBits(s) + rest)[..|text|] == text;
  }

  /** What one character contributes: `zero` reads as 0, `one` as 1, anything else as nothing. */
  function CarrierBit(c: char, zero: char, one: char): (w: seq<Bit>)
    ensures |w| <= 1
  {
    if c == zero then [0] else if c == one then [1] else []
  }

  /** The bits two carrier characters spell in a text, all other characters skipped. */
  function CarrierBits(t: string, zero: char, one: char): (bits: seq<Bit>)
    ensures |bits| <= |t|
  {
    if t == [] then []
    else CarrierBits(t[..|t| - 1], zero, one) + CarrierBit(t[|t| - 1], zero, one)
  }

  lemma CarrierStep(t: string, i: nat, zero: char, one: char)
    requires i < |t|
    ensures CarrierBits(t[..i + 1], zero, one) == CarrierBits(t[..i], zero, one) + CarrierBit(t[i], zero, one)
  {
    assert t[..i + 1][..i] == t[..i];
  }

  lemma {:induction false} CarrierBitsAppend(a: string, b: string, zero: char, one: char)
    ensures CarrierBits(a + b, zero, one) == CarrierBits(a, zero, one) + CarrierBits(b, zero, one)
    decreases |b|
  {
    if b == [] {
      assert a + b == a;
    } else {
      var b' := b[..|b| - 1];
      assert (a + b)[..|a + b| - 1] == a + b';
      CarrierBitsAppend(a, b', zero, one);
    }
  }

  /** A marker completed after the first i characters is the first marker of the whole text. */
  lemma MarkerInPrefix(t: string, i: nat, zero: char, one: char, marker: seq<Bit>)
    requires i <= |t| && FirstEnd(CarrierBits(t[..i], zero, one), marker) == Some(|CarrierBits(t[..i], zero, one)|)
    ensures BeforeFirst(CarrierBits(t, zero, one), marker)
         == Some(CarrierBits(t[..i], zero, one)[..|CarrierBits(t[..i], zero, one)| - |marker|])
  {
    assert t == t[..i] + t[i..];
    CarrierBitsAppend(t[..i], t[i..], zero, one);
    var bits := CarrierBits(t[..i], zero, one);
    BeforeFirstPrefix(bits, CarrierBits(t[i..], zero, one), marker, |bits|);
  }

  /**
   * The extraction loop of the text codecs: read the text character by
   * character, append 0 for `zero` and 1 for `one`, and after every
   * character stop if the bits so far end with the marker; gives the bits
   * in front of the marker, or None when the text runs out first.
   */
  method ScanCarriers(text: string, zero: char, one: char, marker: seq<Bit>) returns (r: Option<seq<Bit>>)
    requires marker != []
    ensures r == BeforeFirst(CarrierBits(text, zero, one), marker)
  {
    var bits: seq<Bit> := [];
    var i := 0;
    while i < |text|
      invariant 0 <= i <= |text|
      invariant bits == CarrierBits(text[..i], zero, one)
      invariant FirstEnd(bits, marker).None?
    {
      var w := CarrierBit(text[i], zero, one);
      CarrierStep(text, i, zero, one);
      FirstEndGrow(bits, w, marker);
      bits := bits + w;
      i := i + 1;
      if EndsAt(bits, marker, |bits|) {
        MarkerInPrefix(text, i, zero, one, marker);
        return Some(bits[..|bits| - |marker|]);
      }
    }
    assert text[..i] == text;
    return None;
  }
}
