/**
 Unpadded base64url (section 5 of RFC 4648), as a key's modulus and exponent and a pending
 login's return path are spelled.
 */
module Base64Url {
  import opened Wrappers

  type Byte = b: int | 0 <= b < 256
  type Sextet = v: int | 0 <= v < 64

  function Symbol(v: Sextet): (c: char)
    ensures Value(c) == Some(v)
  {
    if v < 26 then 'A' + v as char
    else if v < 52 then 'a' + (v - 26) as char
    else if v < 62 then '0' + (v - 52) as char
    else if v == 62 then '-'
    else '_'
  }

  function Value(c: char): Option<Sextet> {
    if 'A' <= c <= 'Z' then Some(c as int - 'A' as int)
    else if 'a' <= c <= 'z' then Some(c as int - 'a' as int + 26)
    else if '0' <= c <= '9' then Some(c as int - '0' as int + 52)
    else if c == '-' then Some(62)
    else if c == '_' then Some(63)
    else None
  }

  predicate IsSymbol(c: char) { Value(c).Some? }

  predicate IsSpelling(s: string) { forall i :: 0 <= i < |s| ==> IsSymbol(s[i]) }

  /** `base64.urlsafe_b64encode` with its padding stripped. */
  function Encode(bytes: seq<Byte>): (s: string)
    ensures IsSpelling(s)
    ensures |s| == (4 * |bytes| + 2) / 3
  {
    if |bytes| == 0 then ""
    else if |bytes| == 1 then [Symbol(bytes[0] / 4), Symbol(bytes[0] % 4 * 16)]
    else if |bytes| == 2 then
      [Symbol(bytes[0] / 4), Symbol(bytes[0] % 4 * 16 + bytes[1] / 16), Symbol(bytes[1] % 16 * 4)]
    else Quartet(bytes[0], bytes[1], bytes[2]) + Encode(bytes[3..])
  }

  function Quartet(a: Byte, b: Byte, c: Byte): (s: string)
    ensures |s| == 4 && IsSpelling(s)
  {
    [Symbol(a / 4), Symbol(a % 4 * 16 + b / 16), Symbol(b % 16 * 4 + c / 64), Symbol(c % 64)]
  }

  /**
   `base64.urlsafe_b64decode` of the text with its padding restored, on text of the alphabet:
   trailing bits are dropped, a group of one symbol is refused.
   */
  function Decode(s: string): Option<seq<Byte>>
    requires IsSpelling(s)
  {
    if |s| == 0 then Some([])
    else if |s| == 1 then None
    else
      var v0, v1 := Value(s[0]).value, Value(s[1]).value;
      if |s| == 2 then Some([v0 * 4 + v1 / 16])
      else
        var v2 := Value(s[2]).value;
        if |s| == 3 then Some([v0 * 4 + v1 / 16, v1 % 16 * 16 + v2 / 4])
        else
          var v3 := Value(s[3]).value;
          match Decode(s[4..])
          case None => None
          case Some(rest) => Some([v0 * 4 + v1 / 16, v1 % 16 * 16 + v2 / 4, v2 % 4 * 64 + v3] + rest)
  }

  /** Four sextets cut from three bytes hold exactly those bytes. */
  lemma SextetsHoldTheBytes(a: Byte, b: Byte, c: Byte)
    ensures a / 4 * 4 + (a % 4 * 16 + b / 16) / 16 == a
    ensures (a % 4 * 16 + b / 16) % 16 * 16 + (b % 16 * 4 + c / 64) / 4 == b
    ensures (b % 16 * 4 + c / 64) % 4 * 64 + c % 64 == c
  {
    var high, mid, low := a % 4, b / 16, c / 64;
    assert (high * 16 + mid) / 16 == high && (high * 16 + mid) % 16 == mid;
    var rest := b % 16;
    assert (rest * 4 + low) / 4 == rest && (rest * 4 + low) % 4 == low;
  }

  lemma DecodeOfEncodedGroup(a: Byte, b: Byte, c: Byte, rest: string)
    requires IsSpelling(rest)
    ensures var s := Quartet(a, b, c) + rest;
            Decode(s) == match Decode(rest) case None => None case Some(bytes) => Some([a, b, c] + bytes)
  {
    SextetsHoldTheBytes(a, b, c);
    var s := Quartet(a, b, c) + rest;
    assert s[4..] == rest;
    assert s[0] == Symbol(a / 4) && s[1] == Symbol(a % 4 * 16 + b / 16);
    assert s[2] == Symbol(b % 16 * 4 + c / 64) && s[3] == Symbol(c % 64);
  }

  lemma DecodeOfEncodedPair(a: Byte, b: Byte)
    ensures Decode(Encode([a, b])) == Some([a, b])
  {
    SextetsHoldTheBytes(a, b, 0);
    var s := Encode([a, b]);
    assert Value(s[0]) == Some(a / 4);
    assert Value(s[1]) == Some(a % 4 * 16 + b / 16);
    assert Value(s[2]) == Some(b % 16 * 4 + 0 / 64);
  }

  lemma DecodeOfEncodedByte(a: Byte)
    ensures Decode(Encode([a])) == Some([a])
  {
    SextetsHoldTheBytes(a, 0, 0);
    var s := Encode([a]);
    assert Value(s[0]) == Some(a / 4);
    assert Value(s[1]) == Some(a % 4 * 16 + 0 / 16);
  }

  /** Decoding undoes encoding, for every byte string. */
  lemma {:induction false} DecodeUndoesEncode(bytes: seq<Byte>)
    ensures Decode(Encode(bytes)) == Some(bytes)
  {
    if |bytes| >= 3 {
      DecodeUndoesEncode(bytes[3..]);
      DecodeOfEncodedGroup(bytes[0], bytes[1], bytes[2], Encode(bytes[3..]));
      assert bytes == [bytes[0], bytes[1], bytes[2]] + bytes[3..];
    } else if |bytes| == 2 {
      DecodeOfEncodedPair(bytes[0], bytes[1]);
      assert bytes == [bytes[0], bytes[1]];
    } else if |bytes| == 1 {
      DecodeOfEncodedByte(bytes[0]);
      assert bytes == [bytes[0]];
    }
  }

  /** No two byte strings share a spelling. */
  lemma EncodeIsInjective(a: seq<Byte>, b: seq<Byte>)
    requires Encode(a) == Encode(b)
    ensures a == b
  {
    DecodeUndoesEncode(a);
    DecodeUndoesEncode(b);
  }
}
