/** encoding/hex on byte strings. */
module Hex {
  import opened Text
  import opened Options

  newtype Byte = b: int | 0 <= b < 256

  type Bytes = seq<Byte>

  function DigitChar(d: int): char
    requires 0 <= d < 16
  {
    if d < 10 then (('0' as int) + d) as char else (('a' as int) + d - 10) as char
  }

  function DigitValue(c: char): (d: Option<int>)
    ensures d.Some? ==> 0 <= d.value < 16
  {
    if '0' <= c <= '9' then Some((c as int) - ('0' as int))
    else if 'a' <= c <= 'f' then Some((c as int) - ('a' as int) + 10)
    else if 'A' <= c <= 'F' then Some((c as int) - ('A' as int) + 10)
    else None
  }

  function Encode(bytes: Bytes): string {
    if bytes == [] then ""
    else [DigitChar(bytes[0] as int / 16), DigitChar(bytes[0] as int % 16)] + Encode(bytes[1..])
  }

  /** hex.DecodeString: both letter cases, an even number of digits. */
  function Decode(s: string): Option<Bytes> {
    if s == "" then Some([])
    else if |s| == 1 then None
    else match (DigitValue(s[0]), DigitValue(s[1]))
      case (Some(hi), Some(lo)) =>
        (match Decode(s[2..])
         case Some(rest) => Some([(16 * hi + lo) as Byte] + rest)
         case None => None)
      case _ => None
  }

  lemma {:induction false} DecodeEncode(bytes: Bytes)
    ensures Decode(Encode(bytes)) == Some(bytes) && |Encode(bytes)| == 2 * |bytes|
  {
    if bytes != [] {
      var s := Encode(bytes);
      DecodeEncode(bytes[1..]);
      assert s[2..] == Encode(bytes[1..]);
      assert 16 * (bytes[0] as int / 16) + bytes[0] as int % 16 == bytes[0] as int;
      assert [bytes[0]] + bytes[1..] == bytes;
    }
  }

  /** What decodes is the encoding of its value, up to letter case. */
  lemma {:induction false} EncodeDecode(s: string)
    requires Decode(s).Some?
    ensures |Encode(Decode(s).value)| == |s|
    ensures forall i :: 0 <= i < |s| ==> Encode(Decode(s).value)[i] == Lower(s[i])
  {
    if s != "" {
      EncodeDecode(s[2..]);
      var bytes := Decode(s).value;
      var hi, lo := DigitValue(s[0]).value, DigitValue(s[1]).value;
      assert bytes[0] as int == 16 * hi + lo && bytes[1..] == Decode(s[2..]).value;
      assert (16 * hi + lo) / 16 == hi && (16 * hi + lo) % 16 == lo;
      forall i | 0 <= i < |s| ensures Encode(bytes)[i] == Lower(s[i]) {
        if i >= 2 {
          assert Encode(bytes)[i] == Encode(bytes[1..])[i - 2] && s[i] == s[2..][i - 2];
        }
      }
    }
  }

  const DIGITS := "0123456789abcdef"

  lemma DigitIsListed(d: int)
    requires 0 <= d < 16
    ensures DigitChar(d) == DIGITS[d]
  {
  }

  /** Each byte becomes its two digits, the high one first. */
  lemma {:induction false} EncodesDigits(bytes: Bytes, i: nat)
    requires i < |bytes|
    ensures |Encode(bytes)| == 2 * |bytes|
    ensures Encode(bytes)[2 * i] == DIGITS[bytes[i] as int / 16]
    ensures Encode(bytes)[2 * i + 1] == DIGITS[bytes[i] as int % 16]
  {
    if i > 0 {
      EncodesDigits(bytes[1..], i - 1);
      assert bytes[1..][i - 1] == bytes[i] && Encode(bytes)[2..] == Encode(bytes[1..]);
    } else {
      DecodeEncode(bytes);
      DigitIsListed(bytes[0] as int / 16);
      DigitIsListed(bytes[0] as int % 16);
    }
  }

  lemma DigitsIgnoreCase(c: char)
    ensures DigitValue(Lower(c)) == DigitValue(c)
  {
  }

  lemma {:induction false} DecodingIgnoresCase(s: string, t: string)
    requires |s| == |t| && forall i :: 0 <= i < |s| ==> Lower(s[i]) == t[i]
    ensures Decode(s) == Decode(t)
  {
    if |s| > 1 {
      DigitsIgnoreCase(s[0]);
      DigitsIgnoreCase(s[1]);
      DecodingIgnoresCase(s[2..], t[2..]);
    }
  }

  /** The text is the digits of these bytes, in either case. */
  predicate Spells(text: string, bytes: Bytes) {
    && |text| == 2 * |bytes| && |Encode(bytes)| == |text|
    && forall i :: 0 <= i < |text| ==> Lower(text[i]) == Encode(bytes)[i]
  }

  /** What decodes to these bytes is what spells them, and nothing else. */
  lemma DecodesExactly(text: string, bytes: Bytes)
    ensures Decode(text) == Some(bytes) <==> Spells(text, bytes)
  {
    DecodeEncode(bytes);
    if Decode(text) == Some(bytes) {
      EncodeDecode(text);
    }
    if Spells(text, bytes) {
      DecodingIgnoresCase(text, Encode(bytes));
    }
  }
}
