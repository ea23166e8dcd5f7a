/**
 * Code derivation (src/shorturl.py): a URL's short code is the first six
 * characters of the lowercase hex SHA-256 digest of the URL.
 */
module ShortUrl {

  /** Number of characters in a generated short code. */
  const CodeLength := 6

  /** Number of characters in a SHA-256 hex digest: 32 bytes, two hex digits each. */
  const DigestLength := 64

  predicate IsLowerHex(c: char) {
    '0' <= c <= '9' || 'a' <= c <= 'f'
  }

  predicate IsHexDigest(s: string) {
    |s| == DigestLength && forall i | 0 <= i < |s| :: IsLowerHex(s[i])
  }

  type HexDigest = s: string | IsHexDigest(s) witness seq(DigestLength, _ => '0')

  /**
   * SHA-256 of the UTF-8 encoding of a string, as its 64-character lowercase
   * hex digest. The hash function itself is not modelled: every operation that
   * derives codes takes it as a parameter, so nothing below depends on which
   * function it is beyond the shape of its output.
   */
  type Sha256 = string -> HexDigest

  /** The short code of a URL. Any string is accepted, the empty one included. */
  function ShortenUrlHash(sha256: Sha256, url: string): (code: string)
    ensures |code| == CodeLength
    ensures forall i | 0 <= i < |code| :: IsLowerHex(code[i])
    ensures code <= sha256(url)
  {
    sha256(url)[..CodeLength]
  }
}
