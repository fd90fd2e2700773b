/** `Security.hashPassword`: SHA3-256 of the UTF-8 bytes, written as hex.
    The digest and the character encodings are supplied by the platform. */
module Security {
  import opened Wrappers
  import opened Bytes
  import Hex

  /** A SHA3-256 digest is always 32 bytes. */
  type Digest = d: Bytes | |d| == 32 witness seq(32, i => 0 as JByte)

  /** What the JVM supplies and the model does not look inside:
      `getBytes(UTF_8)`, `getBytes()` and `new String(bytes)` in the platform
      default charset, and `MessageDigest.getInstance("SHA3-256").digest`. */
  datatype Platform = Platform(
    utf8: string -> Bytes,
    defaultEncode: string -> Bytes,
    defaultDecode: Bytes -> string,
    sha3: Bytes -> Digest)

  /** Length of every stored password digest. */
  const DigestTextLength: nat := 64

  /** The hex text of a password's digest: 64 lower-case hex digits from which
      the digest bytes can be read back. */
  function HashPassword(p: Platform, password: string): (r: string)
    ensures |r| == DigestTextLength
    ensures forall k | 0 <= k < |r| :: Hex.IsHexDigit(r[k])
    ensures Hex.HexDecode(r) == Some(p.sha3(p.utf8(password)))
  {
    var digest := p.sha3(p.utf8(password));
    Hex.DecodeEncode(digest);
    Hex.BytesToHex(digest)
  }

  /** Two passwords hash to the same text exactly when their digests agree. */
  lemma HashEqualIffDigestEqual(p: Platform, a: string, b: string)
    ensures HashPassword(p, a) == HashPassword(p, b) <==> p.sha3(p.utf8(a)) == p.sha3(p.utf8(b))
  {
    if HashPassword(p, a) == HashPassword(p, b) {
      Hex.EncodeInjective(p.sha3(p.utf8(a)), p.sha3(p.utf8(b)));
    }
  }
}
