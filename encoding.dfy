/**
 * The encoding choice of `read_text_auto`: a byte-order mark decides first,
 * then a share of null bytes above a tenth selects UTF-16-LE, else UTF-8.
 * Decoding itself (with `errors="ignore"`) is not part of this model.
 */
module TextEncoding {

  newtype Byte = b: int | 0 <= b < 256

  /**
   * The codecs `read_text_auto` can hand the bytes to. The `cp932` fallback of
   * the source is absent: it runs only if the UTF-8 decode raises, and a decode
   * with `errors="ignore"` never raises.
   */
  datatype Encoding = Utf16Le | Utf16Be | Utf8Sig | Utf8

  const BOM_UTF16_LE: seq<Byte> := [0xFF, 0xFE]
  const BOM_UTF16_BE: seq<Byte> := [0xFE, 0xFF]
  const BOM_UTF8: seq<Byte> := [0xEF, 0xBB, 0xBF]

  /** `b.startswith(prefix)` */
  predicate StartsWith(b: seq<Byte>, prefix: seq<Byte>)
  {
    |prefix| <= |b| && b[..|prefix|] == prefix
  }

  predicate HasBom(b: seq<Byte>)
  {
    StartsWith(b, BOM_UTF16_LE) || StartsWith(b, BOM_UTF16_BE) || StartsWith(b, BOM_UTF8)
  }

  /** `b.count(b"\x00")`, the number of null bytes. */
  function NullCount(b: seq<Byte>): (n: nat)
    ensures n <= |b|
  {
    if |b| == 0 then 0 else NullCount(b[..|b| - 1]) + (if b[|b| - 1] == 0 then 1 else 0)
  }

  /**
   * The BOM tests in source order, then `count > len // 10`, then UTF-8. A
   * byte-order mark at the start always picks its own codec, and plain UTF-8
   * is chosen only for bytes without a mark.
   */
  function ChooseEncoding(b: seq<Byte>): (e: Encoding)
    ensures StartsWith(b, BOM_UTF16_LE) ==> e == Utf16Le
    ensures StartsWith(b, BOM_UTF16_BE) ==> e == Utf16Be
    ensures StartsWith(b, BOM_UTF8) ==> e == Utf8Sig
    ensures e == Utf8 ==> !HasBom(b)
  {
    if StartsWith(b, BOM_UTF16_LE) then Utf16Le
    else if StartsWith(b, BOM_UTF16_BE) then Utf16Be
    else if StartsWith(b, BOM_UTF8) then Utf8Sig
    else if NullCount(b) > |b| / 10 then Utf16Le
    else Utf8
  }

  /** The count of null bytes is the multiplicity of 0 in the bytes. */
  lemma {:induction false} NullCountIsMultiplicity(b: seq<Byte>)
    ensures NullCount(b) == multiset(b)[0]
  {
    if |b| > 0 {
      assert b == b[..|b| - 1] + [b[|b| - 1]];
      assert multiset(b) == multiset(b[..|b| - 1]) + multiset{b[|b| - 1]};
      NullCountIsMultiplicity(b[..|b| - 1]);
    }
  }

  /** `n > len // 10` (floor division) says exactly that nulls are more than a tenth of the bytes. */
  lemma MoreThanATenth(n: nat, len: nat)
    ensures n > len / 10 <==> 10 * n > len
  {
    var q, r := len / 10, len % 10;
    assert len == 10 * q + r && 0 <= r < 10;
  }

  /**
   * The choice characterised in both directions: each BOM selects its codec
   * (the three BOMs exclude each other); with no BOM, UTF-16-LE exactly when
   * null bytes are more than a tenth of all bytes, UTF-8 otherwise.
   */
  lemma ChooseEncodingCharacterised(b: seq<Byte>)
    ensures ChooseEncoding(b) == Utf16Be <==> StartsWith(b, BOM_UTF16_BE)
    ensures ChooseEncoding(b) == Utf8Sig <==> StartsWith(b, BOM_UTF8)
    ensures ChooseEncoding(b) == Utf16Le <==>
              StartsWith(b, BOM_UTF16_LE) || (!HasBom(b) && 10 * multiset(b)[0] > |b|)
    ensures ChooseEncoding(b) == Utf8 <==> !HasBom(b) && 10 * multiset(b)[0] <= |b|
  {
    NullCountIsMultiplicity(b);
    MoreThanATenth(NullCount(b), |b|);
    if StartsWith(b, BOM_UTF16_LE) {
      assert b[0] == 0xFF;
    } else if StartsWith(b, BOM_UTF16_BE) {
      assert b[0] == 0xFE;
    }
  }
}
