/**
 * crypto/caesar.py: the Caesar cipher. Letters are rotated within their
 * alphabet by a fixed shift; what is neither upper- nor lower-case is
 * copied.
 *
 * Python's `str.isupper` and `str.islower` consult the Unicode tables;
 * the model takes that classification as a parameter and requires only
 * that it agrees with ASCII on the code points below 128.
 */
module Caesar {

  datatype LetterCase = Upper | Lower | Uncased

  /** A classification that agrees with `isupper`/`islower` on ASCII. */
  predicate AsciiAgrees(caseOf: char -> LetterCase)
  {
    forall c: char :: c < '\U{0080}' ==>
      caseOf(c) == (if 'A' <= c <= 'Z' then Upper else if 'a' <= c <= 'z' then Lower else Uncased)
  }

  /** `chr((ord(c) - ord(base) + shift) % 26 + ord(base))`; `%` by 26 never yields a negative value in Python either. */
  function Rotate(c: char, base: char, shift: int): (r: char)
    requires base == 'A' || base == 'a'
    ensures base <= r < base + 26 as char
  {
    ((c as int - base as int + shift) % 26 + base as int) as char
  }

  /** What the loop appends for one character. */
  function ShiftChar(c: char, shift: int, caseOf: char -> LetterCase): char
  {
    match caseOf(c)
    case Upper => Rotate(c, 'A', shift)
    case Lower => Rotate(c, 'a', shift)
    case Uncased => c
  }

  /** `"".join(result)` once every character has been through the loop. */
  function EncryptSpec(text: string, shift: int, caseOf: char -> LetterCase): (r: string)
    ensures |r| == |text|
  {
    if text == [] then []
    else EncryptSpec(text[..|text| - 1], shift, caseOf) + [ShiftChar(text[|text| - 1], shift, caseOf)]
  }

  /** `encrypt_caesar`: one output character per input character, appended in order. */
  method Encrypt(plaintext: string, shift: int, caseOf: char -> LetterCase) returns (r: string)
    ensures r == EncryptSpec(plaintext, shift, caseOf)
  {
    var result: string := [];
    var i := 0;
    while i < |plaintext|
      invariant 0 <= i <= |plaintext|
      invariant result == EncryptSpec(plaintext[..i], shift, caseOf)
    {
      assert plaintext[..i + 1][..i] == plaintext[..i];
      var c := plaintext[i];
      match caseOf(c) {
        case Upper =>
          result := result + [((c as int - 'A' as int + shift) % 26 + 'A' as int) as char];
        case Lower =>
          result := result + [((c as int - 'a' as int + shift) % 26 + 'a' as int) as char];
        case Uncased =>
          result := result + [c];
      }
      i := i + 1;
    }
    assert plaintext[..i] == plaintext;
    return result;
  }

  /** `decrypt_caesar`: encryption with the opposite shift. */
  function Decrypt(ciphertext: string, shift: int, caseOf: char -> LetterCase): (r: string)
    ensures |r| == |ciphertext|
  {
    EncryptSpec(ciphertext, -shift, caseOf)
  }

  /** Character i of the ciphertext depends on character i of the plaintext alone. */
  lemma {:induction false} EncryptAt(text: string, shift: int, caseOf: char -> LetterCase, i: nat)
    requires i < |text|
    ensures EncryptSpec(text, shift, caseOf)[i] == ShiftChar(text[i], shift, caseOf)
  {
    var n := |text| - 1;
    if i < n {
      EncryptAt(text[..n], shift, caseOf, i);
    }
  }

  /**
   * On ASCII: an upper-case letter x becomes 'A' + (x - 'A' + shift) mod 26,
   * a lower-case one 'a' + (x - 'a' + shift) mod 26, anything else is kept.
   */
  lemma AsciiLetters(text: string, shift: int, caseOf: char -> LetterCase, i: nat)
    requires AsciiAgrees(caseOf) && i < |text| && text[i] < '\U{0080}'
    ensures var x, y := text[i], EncryptSpec(text, shift, caseOf)[i];
      && ('A' <= x <= 'Z' ==> y as int == 'A' as int + (x as int - 'A' as int + shift) % 26)
      && ('a' <= x <= 'z' ==> y as int == 'a' as int + (x as int - 'a' as int + shift) % 26)
      && (!('A' <= x <= 'Z') && !('a' <= x <= 'z') ==> y == x)
  {
    EncryptAt(text, shift, caseOf, i);
  }

  /** Characters the classification calls uncased are copied unchanged, whatever the shift. */
  lemma UncasedKept(text: string, shift: int, caseOf: char -> LetterCase, i: nat)
    requires i < |text| && caseOf(text[i]) == Uncased
    ensures EncryptSpec(text, shift, caseOf)[i] == text[i]
  {
    EncryptAt(text, shift, caseOf, i);
  }

  /** Shifts s and s + 26 give the same ciphertext. */
  lemma {:induction false} ShiftPeriod(text: string, shift: int, caseOf: char -> LetterCase)
    ensures EncryptSpec(text, shift + 26, caseOf) == EncryptSpec(text, shift, caseOf)
  {
    if text != [] {
      var c := text[|text| - 1];
      ShiftPeriod(text[..|text| - 1], shift, caseOf);
      assert (c as int - 'A' as int + shift + 26) % 26 == (c as int - 'A' as int + shift) % 26;
      assert (c as int - 'a' as int + shift + 26) % 26 == (c as int - 'a' as int + shift) % 26;
    }
  }

  /** A letter rotated within its alphabet and rotated back is the letter. */
  lemma RotateBack(c: char, base: char, shift: int)
    requires base == 'A' || base == 'a'
    requires base <= c < base + 26 as char
    ensures Rotate(Rotate(c, base, shift), base, -shift) == c
  {
    var x := c as int - base as int;
    var y := (x + shift) % 26;
    assert (y - shift) % 26 == x by {
      assert y - shift == x - 26 * ((x + shift) / 26);
    }
  }

  predicate IsAscii(text: string)
  {
    forall i :: 0 <= i < |text| ==> text[i] < '\U{0080}'
  }

  /** For ASCII text, decrypting with the shift used to encrypt gives the plaintext back. */
  lemma {:induction false} DecryptEncrypt(text: string, shift: int, caseOf: char -> LetterCase)
    requires AsciiAgrees(caseOf) && IsAscii(text)
    ensures Decrypt(EncryptSpec(text, shift, caseOf), shift, caseOf) == text
  {
    if text != [] {
      var n := |text| - 1;
      var c := text[n];
      assert IsAscii(text[..n]);
      DecryptEncrypt(text[..n], shift, caseOf);
      var e := EncryptSpec(text, shift, caseOf);
      assert e[..n] == EncryptSpec(text[..n], shift, caseOf);
      if 'A' <= c <= 'Z' {
        RotateBack(c, 'A', shift);
      } else if 'a' <= c <= 'z' {
        RotateBack(c, 'a', shift);
      }
      assert text == text[..n] + [c];
    }
  }

  /**
   * 'É' (U+00C9) is upper-case for Python, so it is rotated as if it were
   * in A..Z: with shift 0 it comes out as 'G', and encrypting and
   * decrypting with shift 3 gives 'G' instead of 'É'.
   */
  lemma NonAsciiUpperGarbled(caseOf: char -> LetterCase)
    requires caseOf('\U{00C9}') == Upper && caseOf('J') == Upper
    ensures EncryptSpec("\U{00C9}", 0, caseOf) == "G"
    ensures Decrypt(EncryptSpec("\U{00C9}", 3, caseOf), 3, caseOf) == "G"
  {
    assert EncryptSpec("\U{00C9}", 3, caseOf) == "J";
  }

  /** The rotation restricted to ASCII letters: every other character, ASCII or not, is copied. */
  function AsciiShiftChar(c: char, shift: int): char
  {
    if 'A' <= c <= 'Z' then Rotate(c, 'A', shift)
    else if 'a' <= c <= 'z' then Rotate(c, 'a', shift)
    else c
  }

  /** The cipher as its documentation describes it: letters rotated, case and all other characters kept. */
  function AsciiEncrypt(text: string, shift: int): (r: string)
    ensures |r| == |text|
  {
    if text == [] then []
    else AsciiEncrypt(text[..|text| - 1], shift) + [AsciiShiftChar(text[|text| - 1], shift)]
  }

  /** With only ASCII letters rotated, decryption undoes encryption on every text, not only ASCII text. */
  lemma {:induction false} AsciiDecryptEncrypt(text: string, shift: int)
    ensures AsciiEncrypt(AsciiEncrypt(text, shift), -shift) == text
  {
    if text != [] {
      var n := |text| - 1;
      var front, c := text[..n], text[n];
      AsciiDecryptEncrypt(front, shift);
      var e := AsciiEncrypt(text, shift);
      assert e == AsciiEncrypt(front, shift) + [AsciiShiftChar(c, shift)];
      assert e[..n] == AsciiEncrypt(front, shift);
      AsciiShiftBack(c, shift);
      assert AsciiEncrypt(e, -shift) == AsciiEncrypt(e[..n], -shift) + [AsciiShiftChar(e[n], -shift)];
      assert text == front + [c];
    }
  }

  /** Shifting one character by s and then by -s gives it back. */
  lemma AsciiShiftBack(c: char, shift: int)
    ensures AsciiShiftChar(AsciiShiftChar(c, shift), -shift) == c
  {
    if 'A' <= c <= 'Z' {
      RotateBack(c, 'A', shift);
    } else if 'a' <= c <= 'z' {
      RotateBack(c, 'a', shift);
    }
  }

  /** On ASCII text, with a classification that agrees with ASCII, the corrected cipher is the original one. */
  lemma {:induction false} AsciiEncryptAgrees(text: string, shift: int, caseOf: char -> LetterCase)
    requires AsciiAgrees(caseOf) && IsAscii(text)
    ensures AsciiEncrypt(text, shift) == EncryptSpec(text, shift, caseOf)
  {
    if text != [] {
      var n := |text| - 1;
      assert IsAscii(text[..n]);
      AsciiEncryptAgrees(text[..n], shift, caseOf);
    }
  }
}
