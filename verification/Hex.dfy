/** Hex text: `hex::encode`, `hex::decode`, `parse_bytes32` and the credential-id form `derive_leaf_hex` takes. */
module Hex {
  import opened Wrappers
  import opened Bytes

  function Digit(d: nat): char
    requires d < 16
  {
    "0123456789abcdef"[d]
  }

  /** Either case is read. */
  function DigitValue(c: char): Result<nat> {
    if '0' <= c <= '9' then Ok(c as int - '0' as int)
    else if 'a' <= c <= 'f' then Ok(c as int - 'a' as int + 10)
    else if 'A' <= c <= 'F' then Ok(c as int - 'A' as int + 10)
    else Err
  }

  lemma DigitRoundTrip(d: nat)
    requires d < 16
    ensures DigitValue(Digit(d)) == Ok(d) && Digit(d) != 'x'
  {
  }

  function Encode(b: seq<byte>): (s: string)
    ensures |s| == 2 * |b|
  {
    if b == [] then "" else [Digit(b[0] / 16), Digit(b[0] % 16)] + Encode(b[1..])
  }

  function Decode(s: string): Result<seq<byte>> {
    if s == "" then Ok([])
    else if |s| == 1 then Err
    else
      match (DigitValue(s[0]), DigitValue(s[1]), Decode(s[2..]))
      case (Ok(h), Ok(l), Ok(rest)) => if 16 * h + l < 256 then Ok([16 * h + l] + rest) else Err
      case _ => Err
  }

  lemma {:induction false} DecodeEncode(b: seq<byte>)
    ensures Decode(Encode(b)) == Ok(b)
  {
    if b != [] {
      DigitRoundTrip(b[0] / 16);
      DigitRoundTrip(b[0] % 16);
      DecodeEncode(b[1..]);
      assert Encode(b)[2..] == Encode(b[1..]);
      assert b == [b[0]] + b[1..];
    }
  }

  function StripPrefix(s: string, prefix: string): string {
    if prefix <= s then s[|prefix|..] else s
  }

  /** `parse_bytes32`: an optional 0x, then exactly 32 bytes. */
  function ParseBytes32(s: string): Result<Bytes32> {
    match Decode(StripPrefix(s, "0x"))
    case Ok(raw) => if |raw| == 32 then Ok(raw) else Err
    case Err => Err
  }

  lemma ParseEncoded(b: Bytes32)
    ensures ParseBytes32(Encode(b)) == Ok(b)
  {
    var s := Encode(b);
    DigitRoundTrip(b[0] % 16);
    assert s[1] != 'x';
    DecodeEncode(b);
  }

  /** The 32 bytes of a credential id: an optional 0x or 0X, then exactly 64 digits. */
  function ParseCredId(s: string): Result<Bytes32> {
    var t := if "0x" <= s then s[2..] else if "0X" <= s then s[2..] else s;
    if |t| != 64 then Err
    else
      match Decode(t)
      case Ok(raw) => if |raw| == 32 then Ok(raw) else Err
      case Err => Err
  }

  /** Upper-case digits are read as well. */
  lemma UpperDigit(d: nat)
    requires d < 16
    ensures DigitValue("0123456789ABCDEF"[d]) == Ok(d)
  {
  }

  /** And nothing else is a digit. */
  lemma OnlyDigits(c: char)
    requires DigitValue(c).Ok?
    ensures DigitValue(c).value < 16
    ensures c == "0123456789abcdef"[DigitValue(c).value] || c == "0123456789ABCDEF"[DigitValue(c).value]
  {
    var v := DigitValue(c).value;
    if v >= 10 { assert c as int == 'a' as int + (v - 10) || c as int == 'A' as int + (v - 10); }
  }

  /** Exactly the even-length digit texts decode. */
  lemma {:induction false} DecodeIff(s: string)
    ensures Decode(s).Ok? <==> |s| % 2 == 0 && forall i :: 0 <= i < |s| ==> DigitValue(s[i]).Ok?
    ensures Decode(s).Ok? ==> 2 * |Decode(s).value| == |s|
  {
    if |s| >= 2 {
      DecodeIff(s[2..]);
      if DigitValue(s[0]).Ok? { OnlyDigits(s[0]); }
      if DigitValue(s[1]).Ok? { OnlyDigits(s[1]); }
      assert forall i :: 2 <= i < |s| ==> s[i] == s[2..][i - 2];
    }
  }

  /** A credential id is read with either prefix or none. */
  lemma ParseCredIdForms(b: Bytes32)
    ensures ParseCredId(Encode(b)) == ParseCredId("0x" + Encode(b)) == ParseCredId("0X" + Encode(b)) == Ok(b)
  {
    var t := Encode(b);
    DecodeEncode(b);
    DigitRoundTrip(b[0] % 16);
    NoPrefix(b[0] % 16);
    assert t[1] == Digit(b[0] % 16);
    assert ("0x" + t)[2..] == t && ("0X" + t)[2..] == t;
  }

  lemma NoPrefix(d: nat)
    requires d < 16
    ensures Digit(d) != 'x' && Digit(d) != 'X'
  {
  }

  /** Without a prefix it is rejected unless it is 64 digits. */
  lemma ParseCredIdIff(s: string)
    requires !("0x" <= s) && !("0X" <= s)
    ensures ParseCredId(s).Ok? <==> |s| == 64 && forall i :: 0 <= i < |s| ==> DigitValue(s[i]).Ok?
  {
    DecodeIff(s);
  }
}
