/**
 Session tokens: 16 random bytes written as 32 lowercase hexadecimal
 characters, and the stored hash of a token, the SHA-256 digest of
 `token + ":" + salt` written the same way. The random source and the
 digest are parameters; UTF-8 encoding of the hash input is part of the
 digest parameter.
 */
module Token {
  import opened Common

  type byte = x: int | 0 <= x < 256

  /** A SHA-256 digest: 32 bytes. */
  type Digest = s: seq<byte> | |s| == 32 witness seq(32, i => 0)

  /** The lowercase hexadecimal digit of a value below 16. */
  function HexDigit(d: int): (c: char)
    requires 0 <= d < 16
  {
    if d < 10 then ('0' as int + d) as char else ('a' as int + d - 10) as char
  }

  predicate IsHexChar(c: char) {
    ('0' <= c <= '9') || ('a' <= c <= 'f')
  }

  /** The value of a lowercase hexadecimal digit. */
  function HexValue(c: char): (d: int)
    requires IsHexChar(c)
    ensures 0 <= d < 16 && HexDigit(d) == c
  {
    if c <= '9' then c as int - '0' as int else c as int - 'a' as int + 10
  }

  lemma HexValueOfDigit(d: int)
    requires 0 <= d < 16
    ensures IsHexChar(HexDigit(d)) && HexValue(HexDigit(d)) == d
  {
  }

  /** `byte.toString(16)`: one digit below 16, two from 16 on. */
  function ToHexString(b: byte): (r: string)
    ensures 1 <= |r| <= 2
  {
    if b < 16 then [HexDigit(b)] else [HexDigit(b / 16), HexDigit(b % 16)]
  }

  /** `s.padStart(2, '0')`. */
  function PadStart2(s: string): (r: string)
    ensures |s| >= 2 ==> r == s
    ensures |s| < 2 ==> |r| == 2 && r[2 - |s|..] == s
  {
    if |s| >= 2 then s else seq(2 - |s|, i => '0') + s
  }

  /** One byte as the page writes it: exactly two digits, high nibble first. */
  function ByteHex(b: byte): (r: string)
    ensures r == [HexDigit(b / 16), HexDigit(b % 16)]
  {
    PadStart2(ToHexString(b))
  }

  /** `Array.from(bytes).map(...).join('')`. */
  function HexEncode(bytes: seq<byte>): (r: string)
    ensures |r| == 2 * |bytes|
    ensures forall i :: 0 <= i < |r| ==> IsHexChar(r[i])
  {
    if |bytes| == 0 then "" else ByteHex(bytes[0]) + HexEncode(bytes[1..])
  }

  /** Byte `i` is written at positions `2 * i` and `2 * i + 1`, high nibble
      first. */
  lemma {:induction false} HexEncodeAt(bytes: seq<byte>, i: int)
    requires 0 <= i < |bytes|
    ensures HexEncode(bytes)[2 * i] == HexDigit(bytes[i] / 16)
    ensures HexEncode(bytes)[2 * i + 1] == HexDigit(bytes[i] % 16)
  {
    if i > 0 {
      var j := 2 * (i - 1);
      HexEncodeAt(bytes[1..], i - 1);
      ShiftByTwo(ByteHex(bytes[0]), HexEncode(bytes[1..]), j);
      assert 2 * i == j + 2;
    }
  }

  lemma ShiftByTwo(h: string, rest: string, j: int)
    requires |h| == 2 && 0 <= j && j + 1 < |rest|
    ensures (h + rest)[j + 2] == rest[j] && (h + rest)[j + 3] == rest[j + 1]
  {
  }

  /** Reading hexadecimal back: nothing for an odd length or a character that
      is not a lowercase digit. */
  function HexDecode(s: string): (r: Option<seq<byte>>)
    ensures r.Some? ==> 2 * |r.value| == |s|
    decreases |s|
  {
    if |s| == 0 then Some([])
    else if |s| == 1 || !IsHexChar(s[0]) || !IsHexChar(s[1]) then None
    else
      match HexDecode(s[2..])
      case None => None
      case Some(rest) => Some([HexValue(s[0]) * 16 + HexValue(s[1])] + rest)
  }

  lemma {:induction false} DecodeEncode(bytes: seq<byte>)
    ensures HexDecode(HexEncode(bytes)) == Some(bytes)
  {
    if |bytes| > 0 {
      var b := bytes[0];
      var h := ByteHex(b);
      var rest := HexEncode(bytes[1..]);
      var s := h + rest;
      assert HexEncode(bytes) == s;
      assert s[0] == h[0] && s[1] == h[1] && s[2..] == rest;
      HexValueOfDigit(b / 16);
      HexValueOfDigit(b % 16);
      DecodeEncode(bytes[1..]);
      assert HexDecode(s) == Some([b] + bytes[1..]);
      assert bytes == [b] + bytes[1..];
    }
  }

  lemma {:induction false} EncodeDecode(s: string)
    requires HexDecode(s).Some?
    ensures HexEncode(HexDecode(s).value) == s
    decreases |s|
  {
    if |s| > 0 {
      var rest := HexDecode(s[2..]).value;
      EncodeDecode(s[2..]);
      var b := HexValue(s[0]) * 16 + HexValue(s[1]);
      assert b / 16 == HexValue(s[0]) && b % 16 == HexValue(s[1]);
      assert HexDecode(s).value == [b] + rest;
      assert ([b] + rest)[1..] == rest;
      assert s == s[..2] + s[2..];
    }
  }

  /** Different byte strings have different encodings. */
  lemma HexEncodeInjective(a: seq<byte>, b: seq<byte>)
    requires HexEncode(a) == HexEncode(b)
    ensures a == b
  {
    DecodeEncode(a);
    DecodeEncode(b);
  }

  /** `generateToken()` over the 16 bytes the random source produced: 32
      lowercase hexadecimal characters that decode back to those bytes. */
  function GenerateToken(random: seq<byte>): (r: string)
    requires |random| == 16
    ensures |r| == 32
    ensures forall i :: 0 <= i < |r| ==> IsHexChar(r[i])
    ensures HexDecode(r) == Some(random)
  {
    DecodeEncode(random);
    HexEncode(random)
  }

  /** The text that is hashed: `${token}:${salt}`, a missing salt being empty. */
  function HashInput(token: string, salt: Option<string>): (r: string)
    ensures |r| == |token| + 1 + |salt.GetOr("")|
    ensures r[..|token|] == token && r[|token|] == ':' && r[|token| + 1..] == salt.GetOr("")
  {
    token + ":" + salt.GetOr("")
  }

  /** For tokens without a colon the hash input determines token and salt, so
      two different tokens never share an input. */
  lemma HashInputInjective(t1: string, s1: Option<string>, t2: string, s2: Option<string>)
    requires forall i :: 0 <= i < |t1| ==> t1[i] != ':'
    requires forall i :: 0 <= i < |t2| ==> t2[i] != ':'
    requires HashInput(t1, s1) == HashInput(t2, s2)
    ensures t1 == t2 && s1.GetOr("") == s2.GetOr("")
  {
    var h := HashInput(t1, s1);
    var n := if |t1| < |t2| then |t1| else |t2|;
    assert h[n] == ':';
  }

  /** `hashToken(token, env)`: 64 lowercase hexadecimal characters that decode
      to the digest of the hash input. */
  function HashToken(token: string, salt: Option<string>, sha256: string -> Digest): (r: string)
    ensures |r| == 64
    ensures forall i :: 0 <= i < |r| ==> IsHexChar(r[i])
    ensures HexDecode(r) == Some(sha256(HashInput(token, salt)))
  {
    var d := sha256(HashInput(token, salt));
    DecodeEncode(d);
    HexEncode(d)
  }

  /** Two generated tokens with the same stored hash have colliding digests:
      distinct tokens reach distinct hash inputs. */
  lemma EqualHashesMeanEqualDigests(r1: seq<byte>, r2: seq<byte>, salt: Option<string>, sha256: string -> Digest)
    requires |r1| == 16 && |r2| == 16 && r1 != r2
    requires HashToken(GenerateToken(r1), salt, sha256) == HashToken(GenerateToken(r2), salt, sha256)
    ensures HashInput(GenerateToken(r1), salt) != HashInput(GenerateToken(r2), salt)
    ensures sha256(HashInput(GenerateToken(r1), salt)) == sha256(HashInput(GenerateToken(r2), salt))
  {
    var t1, t2 := GenerateToken(r1), GenerateToken(r2);
    if HashInput(t1, salt) == HashInput(t2, salt) {
      HashInputInjective(t1, salt, t2, salt);
    }
  }
}
