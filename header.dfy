/**
 * steganalysis/file_pipeline.py, `header_score`: a file whose first bytes
 * carry a known signature scores 0, any other file 15.
 */
module Header {
  import opened Bits

  /** `%PDF`, section 7.5.2 of ISO 32000-1. */
  const PDF: seq<Byte> := [0x25, 0x50, 0x44, 0x46]
  /** `\x89PNG`, section 5.2 of the PNG specification. */
  const PNG: seq<Byte> := [0x89, 0x50, 0x4E, 0x47]
  /** `FF D8 FF`: the JPEG SOI marker (Table B.1 of ITU-T T.81) and the first byte of the next marker. */
  const JPEG: seq<Byte> := [0xFF, 0xD8, 0xFF]
  /** `PK\x03\x04`, the local file header of section 4.3.7 of the ZIP APPNOTE. */
  const ZIP: seq<Byte> := [0x50, 0x4B, 0x03, 0x04]

  /** The signature table, in the order the loop tries it. */
  const SIGNATURES: seq<seq<Byte>> := [PDF, PNG, JPEG, ZIP]

  const KNOWN_SCORE := 0
  const UNKNOWN_SCORE := 15

  predicate StartsWith(data: seq<Byte>, sig: seq<Byte>)
  {
    |sig| <= |data| && data[..|sig|] == sig
  }

  /** `data[:8]`. */
  function Head(data: seq<Byte>): (h: seq<Byte>)
    ensures |h| <= 8 && |h| <= |data| && h == data[..|h|]
    ensures |data| >= 8 ==> |h| == 8
  {
    if |data| <= 8 then data else data[..8]
  }

  /** Whether the header starts with one of the signatures from index i on. */
  function MatchFrom(header: seq<Byte>, sigs: seq<seq<Byte>>, i: nat): (found: bool)
    requires i <= |sigs|
    ensures found <==> exists j :: i <= j < |sigs| && StartsWith(header, sigs[j])
    decreases |sigs| - i
  {
    if i == |sigs| then false
    else if StartsWith(header, sigs[i]) then true
    else MatchFrom(header, sigs, i + 1)
  }

  /** `header_score`: 0 for a known signature at the start of the first eight bytes, 15 otherwise. */
  function HeaderScore(data: seq<Byte>): (score: nat)
    ensures score == KNOWN_SCORE || score == UNKNOWN_SCORE
    ensures score == KNOWN_SCORE <==> exists j :: 0 <= j < |SIGNATURES| && StartsWith(data, SIGNATURES[j])
  {
    var header := Head(data);
    if MatchFrom(header, SIGNATURES, 0) then
      KNOWN_SCORE
    else
      assert forall j :: 0 <= j < |SIGNATURES| ==> (StartsWith(data, SIGNATURES[j]) <==> StartsWith(header, SIGNATURES[j]));
      UNKNOWN_SCORE
  }

  /** Each of the four formats scores 0, whatever follows its signature. */
  lemma KnownFormats(rest: seq<Byte>)
    ensures HeaderScore(PDF + rest) == 0 && HeaderScore(PNG + rest) == 0
    ensures HeaderScore(JPEG + rest) == 0 && HeaderScore(ZIP + rest) == 0
  {
    assert StartsWith(PDF + rest, SIGNATURES[0]);
    assert StartsWith(PNG + rest, SIGNATURES[1]);
    assert StartsWith(JPEG + rest, SIGNATURES[2]);
    assert StartsWith(ZIP + rest, SIGNATURES[3]);
  }

  /** Empty data matches no signature. */
  lemma EmptyUnknown()
    ensures HeaderScore([]) == 15
  {
  }

  /** Only the first eight bytes are looked at. */
  lemma OnlyHeadMatters(data: seq<Byte>, data': seq<Byte>)
    requires Head(data) == Head(data')
    ensures HeaderScore(data) == HeaderScore(data')
  {
    forall j | 0 <= j < |SIGNATURES| ensures StartsWith(data, SIGNATURES[j]) <==> StartsWith(data', SIGNATURES[j]) {
      var sig := SIGNATURES[j];
      assert |sig| <= 4;
      if |sig| <= |data| {
        assert data[..|sig|] == Head(data)[..|sig|];
      }
      if |sig| <= |data'| {
        assert data'[..|sig|] == Head(data')[..|sig|];
      }
    }
  }
}
