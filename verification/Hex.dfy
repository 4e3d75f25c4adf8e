/** Hexadecimal text: what the model needs of the `hex` crate. */
module Hex {
  import opened Common
  import opened Bytes

  function Digit(n: int): (c: char)
    requires 0 <= n < 16
    ensures IsLowerHexDigit(c)
  {
    if n < 10 then '0' + n as char else 'a' + (n - 10) as char
  }

  predicate IsHexDigit(c: char) {
    '0' <= c <= '9' || 'a' <= c <= 'f' || 'A' <= c <= 'F'
  }

  predicate IsLowerHexDigit(c: char) {
    '0' <= c <= '9' || 'a' <= c <= 'f'
  }

  function DigitValue(c: char): (n: int)
    requires IsHexDigit(c)
    ensures 0 <= n < 16
  {
    if c <= '9' then (c - '0') as int
    else if c <= 'F' then (c - 'A') as int + 10
    else (c - 'a') as int + 10
  }

  /** The digits in order; either case has the same value. */
  lemma DigitTable(n: int)
    requires 0 <= n < 16
    ensures Digit(n) == "0123456789abcdef"[n]
    ensures DigitValue("0123456789abcdef"[n]) == DigitValue("0123456789ABCDEF"[n]) == n
  {
  }

  /** `hex::encode`: lower-case digits. */
  function Encode(s: Bytes): (r: string)
    ensures |r| == 2 * |s|
  {
    if s == [] then "" else [Digit(s[0] / 16), Digit(s[0] % 16)] + Encode(s[1..])
  }

  /** `hex::decode`: either case, an even number of digits. */
  function Decode(s: string): (r: Option<Bytes>)
    ensures r.Some? ==> 2 * |r.value| == |s|
  {
    if s == "" then
      Some([])
    else if |s| == 1 || !IsHexDigit(s[0]) || !IsHexDigit(s[1]) then
      None
    else
      match Decode(s[2..])
      case None => None
      case Some(rest) => Some([16 * DigitValue(s[0]) + DigitValue(s[1])] + rest)
  }

  /** Each byte becomes two digits, the higher one first. */
  lemma {:induction false} EncodedDigits(s: Bytes, i: nat)
    requires i < |s|
    ensures Encode(s)[2 * i] == "0123456789abcdef"[s[i] / 16]
    ensures Encode(s)[2 * i + 1] == "0123456789abcdef"[s[i] % 16]
  {
    if i == 0 {
      DigitTable(s[0] / 16);
      DigitTable(s[0] % 16);
    } else {
      EncodedDigits(s[1..], i - 1);
      assert Encode(s)[2..] == Encode(s[1..]);
      assert Encode(s)[2..][2 * (i - 1)] == Encode(s)[2 * i];
      assert Encode(s)[2..][2 * (i - 1) + 1] == Encode(s)[2 * i + 1];
    }
  }

  /** Exactly the texts of an even number of digits can be decoded. */
  lemma {:induction false} DecodesExactlyDigits(s: string)
    ensures Decode(s).Some? <==> |s| % 2 == 0 && forall i :: 0 <= i < |s| ==> IsHexDigit(s[i])
  {
    if |s| >= 2 {
      DecodesExactlyDigits(s[2..]);
      assert s == [s[0], s[1]] + s[2..];
    }
  }

  /** Two digits make a byte, the first one the higher. */
  lemma {:induction false} DecodedDigits(s: string, i: nat)
    requires Decode(s).Some? && i < |Decode(s).value|
    ensures IsHexDigit(s[2 * i]) && IsHexDigit(s[2 * i + 1])
    ensures Decode(s).value[i] == 16 * DigitValue(s[2 * i]) + DigitValue(s[2 * i + 1])
  {
    if i > 0 {
      DecodedDigits(s[2..], i - 1);
      assert s[2..][2 * (i - 1)] == s[2 * i] && s[2..][2 * (i - 1) + 1] == s[2 * i + 1];
    }
  }

  lemma {:induction false} DecodeEncode(s: Bytes)
    ensures Decode(Encode(s)) == Some(s)
  {
    if s != [] {
      DecodeEncode(s[1..]);
      assert DigitValue(Digit(s[0] / 16)) == s[0] / 16 && DigitValue(Digit(s[0] % 16)) == s[0] % 16;
      assert Encode(s)[2..] == Encode(s[1..]);
      assert [s[0]] + s[1..] == s;
    }
  }

  predicate IsLowerHex(s: string) {
    |s| % 2 == 0 && forall i :: 0 <= i < |s| ==> IsLowerHexDigit(s[i])
  }

  /** Decoding lower-case text loses nothing. */
  lemma {:induction false} EncodeDecode(s: string)
    requires IsLowerHex(s)
    ensures Decode(s).Some? && Encode(Decode(s).value) == s
  {
    if s != "" {
      EncodeDecode(s[2..]);
      assert s == [s[0], s[1]] + s[2..];
      var d := Decode(s).value;
      assert d[1..] == Decode(s[2..]).value;
      assert Digit(DigitValue(s[0])) == s[0] && Digit(DigitValue(s[1])) == s[1];
      assert d[0] / 16 == DigitValue(s[0]) && d[0] % 16 == DigitValue(s[1]);
    }
  }

  lemma {:induction false} EncodeIsLowerHex(s: Bytes)
    ensures IsLowerHex(Encode(s))
  {
    if s != [] {
      EncodeIsLowerHex(s[1..]);
      forall i | 0 <= i < |Encode(s)|
        ensures IsLowerHexDigit(Encode(s)[i])
      {
        if i >= 2 {
          assert Encode(s)[i] == Encode(s[1..])[i - 2];
        }
      }
    }
  }
}
