/**
 * UTF-8 as defined by RFC 3629 (sections 3 and 4): the encoding Python's
 * `str.encode("utf-8")` produces, the strict decoder behind
 * `bytes.decode("utf-8")` and the lenient one behind
 * `bytes.decode("utf-8", errors="ignore")`.
 *
 * A Dafny `char` is a Unicode scalar value, so every string here encodes.
 */
module Utf8 {
  import opened Wrappers
  import opened Bits

  predicate IsContinuation(b: Byte)
  {
    0x80 <= b <= 0xBF
  }

  /** The one to four bytes RFC 3629 section 3 assigns to a scalar value. */
  function EncodeChar(c: char): (bs: seq<Byte>)
    ensures 1 <= |bs| <= 4
    ensures bs[0] == 0 <==> c == '\0'
    ensures forall i :: 0 <= i < |bs| ==> bs[i] <= 0xF4
    ensures forall i :: 1 <= i < |bs| ==> IsContinuation(bs[i])
  {
    var cp := c as int;
    if cp < 0x80 then [cp]
    else if cp < 0x800 then [0xC0 + cp / 64, 0x80 + cp % 64]
    else if cp < 0x10000 then [0xE0 + cp / 4096, 0x80 + cp / 64 % 64, 0x80 + cp % 64]
    else [0xF0 + cp / 262144, 0x80 + cp / 4096 % 64, 0x80 + cp / 64 % 64, 0x80 + cp % 64]
  }

  function Encode(s: string): (bs: seq<Byte>)
    ensures |bs| >= |s|
    ensures bs == [] <==> s == []
    ensures forall i :: 0 <= i < |bs| ==> bs[i] != 0xFF
    ensures (forall i :: 0 <= i < |s| ==> s[i] != '\0') ==> forall i :: 0 <= i < |bs| ==> bs[i] != 0
  {
    if s == [] then [] else EncodeChar(s[0]) + Encode(s[1..])
  }

  datatype Decoded = Decoded(c: char, len: nat)

  /**
   * The scalar value at the start of b and how many bytes it takes, or None
   * when b does not start with a well-formed sequence: a stray continuation
   * byte, a missing continuation, an overlong form, a surrogate, or a value
   * above U+10FFFF.
   */
  function DecodeChar(b: seq<Byte>): (r: Option<Decoded>)
    requires |b| > 0
    ensures r.Some? ==> 1 <= r.value.len <= |b| && r.value.len <= 4
  {
    var b0 := b[0];
    if b0 < 0x80 then Some(Decoded(b0 as char, 1))
    else if 0xC2 <= b0 <= 0xDF then Decode2(b)
    else if 0xE0 <= b0 <= 0xEF then Decode3(b)
    else if 0xF0 <= b0 <= 0xF4 then Decode4(b)
    else None
  }

  /** A two-byte sequence: lead byte C2..DF, so the value is at least U+0080. */
  function Decode2(b: seq<Byte>): (r: Option<Decoded>)
    requires |b| > 0 && 0xC2 <= b[0] <= 0xDF
    ensures r.Some? ==> r.value.len == 2 <= |b|
  {
    if |b| >= 2 && IsContinuation(b[1]) then
      Some(Decoded(((b[0] as int - 0xC0) * 64 + (b[1] as int - 0x80)) as char, 2))
    else None
  }

  /** A three-byte sequence: refused when overlong (below U+0800) or a surrogate. */
  function Decode3(b: seq<Byte>): (r: Option<Decoded>)
    requires |b| > 0 && 0xE0 <= b[0] <= 0xEF
    ensures r.Some? ==> r.value.len == 3 <= |b|
  {
    if |b| >= 3 && IsContinuation(b[1]) && IsContinuation(b[2]) then
      var cp := (b[0] as int - 0xE0) * 4096 + (b[1] as int - 0x80) * 64 + (b[2] as int - 0x80);
      if cp < 0x800 || 0xD800 <= cp <= 0xDFFF then None else Some(Decoded(cp as char, 3))
    else None
  }

  /** A four-byte sequence: refused when overlong (below U+10000) or above U+10FFFF. */
  function Decode4(b: seq<Byte>): (r: Option<Decoded>)
    requires |b| > 0 && 0xF0 <= b[0] <= 0xF4
    ensures r.Some? ==> r.value.len == 4 <= |b|
  {
    if |b| >= 4 && IsContinuation(b[1]) && IsContinuation(b[2]) && IsContinuation(b[3]) then
      var cp := (b[0] as int - 0xF0) * 262144 + (b[1] as int - 0x80) * 4096 + (b[2] as int - 0x80) * 64 + (b[3] as int - 0x80);
      if cp < 0x10000 || cp > 0x10FFFF then None else Some(Decoded(cp as char, 4))
    else None
  }

  /** Strict decoding: None as soon as any part of b is not well-formed UTF-8. */
  function DecodeStrict(b: seq<Byte>): Option<string>
    decreases |b|
  {
    if b == [] then Some([])
    else match DecodeChar(b)
      case None => None
      case Some(d) =>
        match DecodeStrict(b[d.len..])
        case None => None
        case Some(rest) => Some([d.c] + rest)
  }

  /**
   * Decoding that skips what is not well-formed. Python drops the maximal
   * ill-formed prefix at each error; every byte of such a prefix after its
   * first is a continuation byte, which cannot start a character either, so
   * dropping one byte at a time drops the same bytes.
   */
  function DecodeIgnore(b: seq<Byte>): string
    decreases |b|
  {
    if b == [] then []
    else match DecodeChar(b)
      case None => DecodeIgnore(b[1..])
      case Some(d) => [d.c] + DecodeIgnore(b[d.len..])
  }

  // Arithmetic on the 6-bit groups of a scalar value.

  lemma DivMod64(q: int, r: int)
    requires 0 <= r < 64
    ensures (q * 64 + r) / 64 == q && (q * 64 + r) % 64 == r
  {
  }

  lemma Shift12(cp: nat)
    ensures cp / 64 / 64 == cp / 4096
  {
    var a, r := cp / 4096, cp % 4096;
    DivMod64(a * 64 + r / 64, r % 64);
    DivMod64(a, r / 64);
  }

  lemma Shift18(cp: nat)
    ensures cp / 4096 / 64 == cp / 262144
  {
    var a, r := cp / 262144, cp % 262144;
    assert cp == (a * 64 + r / 4096) * 4096 + r % 4096;
    assert cp / 4096 == a * 64 + r / 4096;
    DivMod64(a, r / 4096);
  }

  /** A value split into 6-bit groups by EncodeChar is put back together by DecodeChar. */
  lemma Recompose(cp: nat)
    ensures cp / 64 * 64 + cp % 64 == cp
    ensures cp / 4096 * 4096 + cp / 64 % 64 * 64 + cp % 64 == cp
    ensures cp / 262144 * 262144 + cp / 4096 % 64 * 4096 + cp / 64 % 64 * 64 + cp % 64 == cp
  {
    Shift12(cp);
    Shift18(cp);
  }

  /** The groups DecodeChar assembles are the ones EncodeChar splits off again. */
  lemma Decompose(hi: nat, mid2: nat, mid1: nat, lo: nat)
    requires mid2 < 64 && mid1 < 64 && lo < 64
    ensures var cp := hi * 262144 + mid2 * 4096 + mid1 * 64 + lo;
      cp / 64 == hi * 4096 + mid2 * 64 + mid1 && cp % 64 == lo &&
      cp / 4096 == hi * 64 + mid2 && cp / 64 % 64 == mid1 &&
      cp / 262144 == hi && cp / 4096 % 64 == mid2
  {
    var cp := hi * 262144 + mid2 * 4096 + mid1 * 64 + lo;
    DivMod64(hi * 4096 + mid2 * 64 + mid1, lo);
    DivMod64(hi * 64 + mid2, mid1);
    DivMod64(hi, mid2);
    Shift12(cp);
    Shift18(cp);
  }

  lemma DecodeOfEncode2(c: char, rest: seq<Byte>)
    requires 0x80 <= c as int < 0x800
    ensures DecodeChar(EncodeChar(c) + rest) == Some(Decoded(c, 2))
  {
    var cp := c as int;
    var b := EncodeChar(c) + rest;
    Recompose(cp);
    assert b[0] as int - 0xC0 == cp / 64 && b[1] as int - 0x80 == cp % 64;
  }

  lemma DecodeOfEncode3(c: char, rest: seq<Byte>)
    requires 0x800 <= c as int < 0x10000
    ensures DecodeChar(EncodeChar(c) + rest) == Some(Decoded(c, 3))
  {
    var cp := c as int;
    var b := EncodeChar(c) + rest;
    Recompose(cp);
    assert b[0] as int - 0xE0 == cp / 4096 && b[1] as int - 0x80 == cp / 64 % 64;
    assert b[2] as int - 0x80 == cp % 64;
  }

  lemma DecodeOfEncode4(c: char, rest: seq<Byte>)
    requires 0x10000 <= c as int
    ensures DecodeChar(EncodeChar(c) + rest) == Some(Decoded(c, 4))
  {
    var cp := c as int;
    var b := EncodeChar(c) + rest;
    Recompose(cp);
    assert b[0] as int - 0xF0 == cp / 262144 && b[1] as int - 0x80 == cp / 4096 % 64;
    assert b[2] as int - 0x80 == cp / 64 % 64 && b[3] as int - 0x80 == cp % 64;
  }

  /** The decoder reads back exactly the character the encoder wrote, whatever follows it. */
  lemma DecodeCharOfEncodeChar(c: char, rest: seq<Byte>)
    ensures DecodeChar(EncodeChar(c) + rest) == Some(Decoded(c, |EncodeChar(c)|))
  {
    var cp := c as int;
    if cp < 0x80 {
    } else if cp < 0x800 {
      DecodeOfEncode2(c, rest);
    } else if cp < 0x10000 {
      DecodeOfEncode3(c, rest);
    } else {
      DecodeOfEncode4(c, rest);
    }
  }

  lemma EncodeOfDecode2(b: seq<Byte>)
    requires |b| > 0 && 0xC2 <= b[0] <= 0xDF && Decode2(b).Some?
    ensures b[..2] == EncodeChar(Decode2(b).value.c)
  {
    Decompose(0, 0, b[0] as int - 0xC0, b[1] as int - 0x80);
  }

  lemma EncodeOfDecode3(b: seq<Byte>)
    requires |b| > 0 && 0xE0 <= b[0] <= 0xEF && Decode3(b).Some?
    ensures b[..3] == EncodeChar(Decode3(b).value.c)
  {
    Decompose(0, b[0] as int - 0xE0, b[1] as int - 0x80, b[2] as int - 0x80);
  }

  lemma EncodeOfDecode4(b: seq<Byte>)
    requires |b| > 0 && 0xF0 <= b[0] <= 0xF4 && Decode4(b).Some?
    ensures b[..4] == EncodeChar(Decode4(b).value.c)
  {
    Decompose(b[0] as int - 0xF0, b[1] as int - 0x80, b[2] as int - 0x80, b[3] as int - 0x80);
  }

  /** A well-formed sequence is the encoding of the character it decodes to: decoding is canonical. */
  lemma EncodeCharOfDecodeChar(b: seq<Byte>)
    requires |b| > 0 && DecodeChar(b).Some?
    ensures b[..DecodeChar(b).value.len] == EncodeChar(DecodeChar(b).value.c)
  {
    if b[0] < 0x80 {
    } else if b[0] <= 0xDF {
      EncodeOfDecode2(b);
    } else if b[0] <= 0xEF {
      EncodeOfDecode3(b);
    } else {
      EncodeOfDecode4(b);
    }
  }

  /** Strict decoding undoes encoding. */
  lemma {:induction false} DecodeStrictOfEncode(s: string)
    ensures DecodeStrict(Encode(s)) == Some(s)
  {
    if s != [] {
      var b := Encode(s);
      DecodeCharOfEncodeChar(s[0], Encode(s[1..]));
      assert b[|EncodeChar(s[0])|..] == Encode(s[1..]);
      DecodeStrictOfEncode(s[1..]);
      assert [s[0]] + s[1..] == s;
    }
  }

  /** Encoding a string that starts with c writes c's bytes first. */
  lemma EncodeCons(c: char, rest: string)
    ensures Encode([c] + rest) == EncodeChar(c) + Encode(rest)
  {
    var s := [c] + rest;
    assert s[0] == c && s[1..] == rest;
  }

  /** Bytes split into the encoding of c and the encoding of rest are the encoding of c followed by rest. */
  lemma Reassemble(b: seq<Byte>, k: nat, c: char, rest: string)
    requires k <= |b| && b[..k] == EncodeChar(c) && Encode(rest) == b[k..]
    ensures Encode([c] + rest) == b
  {
    EncodeCons(c, rest);
    assert b == b[..k] + b[k..];
  }

  /** Strict decoding of non-empty input reads one character and then decodes the rest. */
  lemma DecodeStrictStep(b: seq<Byte>)
    requires b != [] && DecodeStrict(b).Some?
    ensures DecodeChar(b).Some?
    ensures DecodeStrict(b[DecodeChar(b).value.len..]).Some?
    ensures DecodeStrict(b).value == [DecodeChar(b).value.c] + DecodeStrict(b[DecodeChar(b).value.len..]).value
  {
  }

  /** What strict decoding accepts is exactly the encoding of what it returns. */
  lemma {:induction false} EncodeOfDecodeStrict(b: seq<Byte>)
    requires DecodeStrict(b).Some?
    ensures Encode(DecodeStrict(b).value) == b
    decreases |b|
  {
    if b != [] {
      DecodeStrictStep(b);
      var d := DecodeChar(b).value;
      var tail := b[d.len..];
      var rest := DecodeStrict(tail).value;
      EncodeCharOfDecodeChar(b);
      EncodeOfDecodeStrict(tail);
      Reassemble(b, d.len, d.c, rest);
    }
  }

  /** Lenient decoding of well-formed input loses nothing. */
  lemma {:induction false} DecodeIgnoreOfEncode(s: string)
    ensures DecodeIgnore(Encode(s)) == s
  {
    if s != [] {
      var b := Encode(s);
      DecodeCharOfEncodeChar(s[0], Encode(s[1..]));
      assert b[|EncodeChar(s[0])|..] == Encode(s[1..]);
      DecodeIgnoreOfEncode(s[1..]);
      assert [s[0]] + s[1..] == s;
    }
  }
}
