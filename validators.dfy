/**
 * utils/validators.py: the request checks the backend runs before any
 * embedding or extraction. Each check either accepts its argument or
 * raises a ValueError with a fixed message.
 */
module Validators {
  import opened Wrappers
  import opened PyText

  const ALLOWED_IMAGE_EXTENSIONS: set<string> := {"png", "jpg", "jpeg", "bmp", "tiff", "webp", "gif", "heic", "heif"}

  const SECRET_EMPTY := "Secret message cannot be empty"
  const COVER_REQUIRED := "Cover text is required"
  const COVER_NOT_STR := "Cover text must be a string"
  const COVER_TOO_SHORT := "Cover text is too short for steganography"
  const STEGO_REQUIRED := "Stego text is required"
  const STEGO_NOT_STR := "Stego text must be a string"
  const STEGO_TOO_SHORT := "Stego text is too short or invalid"

  /** `c.lower()` on ASCII: upper-case letters map to lower-case ones, everything else is kept. */
  function LowerChar(c: char): (l: char)
    ensures 'A' <= c <= 'Z' ==> l as int == c as int + 32
    ensures !('A' <= c <= 'Z') ==> l == c
  {
    if 'A' <= c <= 'Z' then (c as int + 32) as char else c
  }

  function Lower(s: string): (l: string)
    ensures |l| == |s|
    ensures forall i :: 0 <= i < |s| ==> l[i] == LowerChar(s[i])
  {
    seq(|s|, i requires 0 <= i < |s| => LowerChar(s[i]))
  }

  /** The index of the last '.' in s, if there is one. */
  function LastDot(s: string): (r: Option<nat>)
    ensures r.None? <==> '.' !in s
    ensures r.Some? ==> r.value < |s| && s[r.value] == '.' && '.' !in s[r.value + 1..]
  {
    if s == [] then None
    else if s[|s| - 1] == '.' then Some(|s| - 1)
    else
      var r := LastDot(s[..|s| - 1]);
      assert s == s[..|s| - 1] + [s[|s| - 1]];
      if r.Some? then
        assert s[r.value + 1..] == s[..|s| - 1][r.value + 1..] + [s[|s| - 1]];
        r
      else r
  }

  /** `is_allowed_image`: the text after the last dot, lower-cased, is one of the allowed extensions. */
  function IsAllowedImage(filename: string): bool
  {
    match LastDot(filename)
    case None => false
    case Some(k) => Lower(filename[k + 1..]) in ALLOWED_IMAGE_EXTENSIONS
  }

  /** k is the position of the last dot of s. */
  predicate LastDotAt(s: string, k: nat)
  {
    k < |s| && s[k] == '.' && '.' !in s[k + 1..]
  }

  /** There is only one last dot, and LastDot finds it. */
  lemma LastDotUnique(s: string, k: nat)
    requires LastDotAt(s, k)
    ensures LastDot(s) == Some(k)
  {
    assert '.' in s;
  }

  /** The last dot of `name.ext` is the one before ext when ext has no dot of its own. */
  lemma LastDotOfJoin(name: string, ext: string)
    requires '.' !in ext
    ensures LastDot(name + "." + ext) == Some(|name|)
  {
    var f := name + "." + ext;
    assert f[|name| + 1..] == ext;
    LastDotUnique(f, |name|);
  }

  /**
   * A file name is accepted exactly when it splits, at a dot with no dot
   * after it, into a name and an extension that lower-cases to an allowed one.
   */
  lemma AllowedIff(filename: string)
    ensures IsAllowedImage(filename) <==>
      exists k: nat :: LastDotAt(filename, k) && Lower(filename[k + 1..]) in ALLOWED_IMAGE_EXTENSIONS
  {
    if IsAllowedImage(filename) {
      var k := LastDot(filename).value;
      assert LastDotAt(filename, k);
    }
    if k: nat :| LastDotAt(filename, k) && Lower(filename[k + 1..]) in ALLOWED_IMAGE_EXTENSIONS {
      AllowedAt(filename, k);
    }
  }

  /** An allowed extension after the last dot makes the name allowed. */
  lemma AllowedAt(filename: string, k: nat)
    requires LastDotAt(filename, k) && Lower(filename[k + 1..]) in ALLOWED_IMAGE_EXTENSIONS
    ensures IsAllowedImage(filename)
  {
    LastDotUnique(filename, k);
    assert LastDot(filename) == Some(k);
  }

  /** `name.ext` is judged by ext alone, whatever the name holds, dots included. */
  lemma ExtensionDecides(name: string, ext: string)
    requires '.' !in ext
    ensures IsAllowedImage(name + "." + ext) <==> Lower(ext) in ALLOWED_IMAGE_EXTENSIONS
  {
    LastDotOfJoin(name, ext);
    assert (name + "." + ext)[|name| + 1..] == ext;
  }

  /** Upper-case and lower-case spellings of an extension are judged alike. */
  lemma CaseInsensitive(name: string, ext: string)
    requires '.' !in ext
    ensures IsAllowedImage(name + "." + ext) == IsAllowedImage(name + "." + Lower(ext))
  {
    assert '.' !in Lower(ext) by {
      forall i | 0 <= i < |ext| ensures Lower(ext)[i] != '.' {}
    }
    ExtensionDecides(name, ext);
    ExtensionDecides(name, Lower(ext));
    assert Lower(Lower(ext)) == Lower(ext);
  }

  /** A file name without a dot is never accepted, and a name ending in a dot neither. */
  lemma NoExtensionRejected(name: string)
    ensures '.' !in name ==> !IsAllowedImage(name)
    ensures !IsAllowedImage(name + ".")
  {
    assert Lower("") !in ALLOWED_IMAGE_EXTENSIONS;
  }

  /** `validate_secret`: refused when None or when `str(secret).strip()` is empty. */
  function ValidateSecret(secret: PyValue): (r: Result<(), PyError>)
    ensures r.Err? ==> r.error == ValueError(SECRET_EMPTY)
  {
    if secret.PyNone? || Strip(Str(secret)) == [] then Err(ValueError(SECRET_EMPTY)) else Ok(())
  }

  /** A secret is refused exactly when it is None or its text is all whitespace (the empty text included). */
  lemma SecretIff(secret: PyValue)
    ensures ValidateSecret(secret).Err? <==>
      secret.PyNone? || forall i :: 0 <= i < |Str(secret)| ==> IsSpace(Str(secret)[i])
  {
    if !secret.PyNone? {
      StripEmpty(Str(secret));
    }
  }

  /** `validate_cover_text`: None, a non-str, and a str shorter than two characters are refused, in that order. */
  function ValidateCoverText(text: PyValue): (r: Result<(), PyError>)
    ensures r.Ok? <==> text.PyStr? && |text.s| >= 2
    ensures text.PyNone? ==> r == Err(ValueError(COVER_REQUIRED))
    ensures text.PyOther? ==> r == Err(ValueError(COVER_NOT_STR))
    ensures text.PyStr? && |text.s| < 2 ==> r == Err(ValueError(COVER_TOO_SHORT))
  {
    match text
    case PyNone => Err(ValueError(COVER_REQUIRED))
    case PyOther(_) => Err(ValueError(COVER_NOT_STR))
    case PyStr(s) => if |s| < 2 then Err(ValueError(COVER_TOO_SHORT)) else Ok(())
  }

  /** `validate_stego_text`: the same rules as the cover text, with their own messages. */
  function ValidateStegoText(text: PyValue): (r: Result<(), PyError>)
    ensures r.Ok? <==> text.PyStr? && |text.s| >= 2
    ensures text.PyNone? ==> r == Err(ValueError(STEGO_REQUIRED))
    ensures text.PyOther? ==> r == Err(ValueError(STEGO_NOT_STR))
    ensures text.PyStr? && |text.s| < 2 ==> r == Err(ValueError(STEGO_TOO_SHORT))
  {
    match text
    case PyNone => Err(ValueError(STEGO_REQUIRED))
    case PyOther(_) => Err(ValueError(STEGO_NOT_STR))
    case PyStr(s) => if |s| < 2 then Err(ValueError(STEGO_TOO_SHORT)) else Ok(())
  }

  /** The cover and stego checks accept the same values; text is never stripped, so whitespace counts towards the length. */
  lemma SameRules(text: PyValue)
    ensures ValidateCoverText(text).Ok? == ValidateStegoText(text).Ok?
    ensures ValidateCoverText(PyStr("  ")).Ok?
  {
  }
}
