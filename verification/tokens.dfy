/** The two credentials the service issues: the opaque refresh token
    (`randomBytes(64).toString("hex")`) and the access token's claims
    (`jwt.sign({ userId, email, iat })`, signature abstracted away). */
module Tokens {
  import opened Wrappers
  import Schema

  newtype byte = x: int | 0 <= x < 256

  /** `crypto.randomBytes(64)`: the number of random bytes behind a refresh token. */
  const RefreshTokenBytes: nat := 64

  predicate IsHexDigit(c: char) {
    '0' <= c <= '9' || 'a' <= c <= 'f'
  }

  /** The lower-case hexadecimal digit of a value below 16. */
  function HexDigit(d: int): (c: char)
    requires 0 <= d < 16
    ensures IsHexDigit(c)
  {
    if d < 10 then ('0' as int + d) as char else ('a' as int + d - 10) as char
  }

  /** The value of a hexadecimal digit. */
  function HexValue(c: char): (d: int)
    requires IsHexDigit(c)
    ensures 0 <= d < 16 && HexDigit(d) == c
  {
    if c <= '9' then c as int - '0' as int else c as int - 'a' as int + 10
  }

  /** `Buffer.toString("hex")`: two lower-case digits per byte, high nibble first. */
  function HexEncode(bytes: seq<byte>): (s: string)
    ensures |s| == 2 * |bytes|
    ensures forall i :: 0 <= i < |s| ==> IsHexDigit(s[i])
  {
    if bytes == [] then []
    else [HexDigit(bytes[0] as int / 16), HexDigit(bytes[0] as int % 16)] + HexEncode(bytes[1..])
  }

  /** The inverse of `HexEncode`, defined on strings of digit pairs. */
  function HexDecode(s: string): Option<seq<byte>>
    decreases |s|
  {
    if s == [] then Some([])
    else if |s| == 1 || !IsHexDigit(s[0]) || !IsHexDigit(s[1]) then None
    else match HexDecode(s[2..])
      case None => None
      case Some(rest) => Some([(HexValue(s[0]) * 16 + HexValue(s[1])) as byte] + rest)
  }

  /** Decoding the hex text gives back the random bytes: the encoding loses nothing. */
  lemma {:induction false} HexRoundTrip(bytes: seq<byte>)
    ensures HexDecode(HexEncode(bytes)) == Some(bytes)
  {
    if bytes != [] {
      var s := HexEncode(bytes);
      var b := bytes[0] as int;
      assert s[2..] == HexEncode(bytes[1..]);
      HexRoundTrip(bytes[1..]);
      assert HexValue(s[0]) == b / 16 && HexValue(s[1]) == b % 16;
      assert bytes == [bytes[0]] + bytes[1..];
    }
  }

  /** The refresh token `generateRefreshToken` returns, given the random bytes. */
  function RefreshTokenText(entropy: seq<byte>): (token: string)
    ensures |entropy| == RefreshTokenBytes ==> |token| == 128 && |token| <= Schema.TokenMaxLength
  {
    HexEncode(entropy)
  }

  /** The JWT payload `generateToken` signs. */
  datatype Claims = Claims(userId: Schema.Uuid, email: string, iat: int)

  /** `generateToken(user)` with `iat: Math.floor(Date.now() / 1000)`: the issued-at
      second is the one the clock reading falls in. */
  function IssueAccessToken(u: Schema.User, now: int): (c: Claims)
    ensures c.userId == u.id && c.email == u.email
    ensures c.iat * 1000 <= now < (c.iat + 1) * 1000
  {
    Claims(u.id, u.email, now / 1000)
  }
}
