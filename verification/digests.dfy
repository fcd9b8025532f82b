/**
 * Password hashing and salt generation (internal/helpers/token_helpers.go).
 * SHA-256 and the operating system's random source are outside the model:
 * the hash arrives as a function parameter and the random read as its result.
 */
module Digests {
  import opened Wrappers
  import opened Hex

  type Sha256Digest = d: Bytes | |d| == 32 witness seq(32, _ => 0)
  type Md5Digest = d: Bytes | |d| == 16 witness seq(16, _ => 0)
  type SaltBytes = d: Bytes | |d| == 16 witness seq(16, _ => 0)

  /** The SHA-256 of a Go string's UTF-8 bytes. */
  type Sha256 = string -> Sha256Digest

  /** The MD5 digest (RFC 1321) of a byte string. */
  type Md5 = Bytes -> Md5Digest

  /**
   * HashPassword: the hex text of SHA-256 over the password immediately
   * followed by the salt. It is 64 lowercase hex digits that decode to
   * exactly that digest.
   */
  function HashPassword(sha256: Sha256, password: string, salt: string): (h: string)
    ensures |h| == 64 && IsLowerHex(h)
    ensures Decode(h) == Some(sha256(password + salt))
  {
    DecodeEncode(sha256(password + salt));
    Encode(sha256(password + salt))
  }

  /**
   * Two stored hashes are equal exactly when the digests of the salted
   * passwords are equal; the split between password and salt is not part of
   * the input, so ("ab", "c") and ("a", "bc") hash alike.
   */
  lemma HashPasswordMatches(sha256: Sha256, p1: string, s1: string, p2: string, s2: string)
    ensures HashPassword(sha256, p1, s1) == HashPassword(sha256, p2, s2)
        <==> sha256(p1 + s1) == sha256(p2 + s2)
  {
    if HashPassword(sha256, p1, s1) == HashPassword(sha256, p2, s2) {
      EncodeInjective(sha256(p1 + s1), sha256(p2 + s2));
    }
  }

  /**
   * GenerateRandomSalt given the outcome of reading 16 random bytes: the
   * read's error, or the 32 hex digits of those bytes.
   */
  function GenerateRandomSalt(read: Result<SaltBytes, string>): (r: Result<string, string>)
    ensures r.Failure? <==> read.Failure?
    ensures r.Failure? ==> r.error == read.error
    ensures r.Success? ==> |r.value| == 32 && IsLowerHex(r.value) && Decode(r.value) == Some(read.value)
  {
    match read
    case Failure(e) => Failure(e)
    case Success(bytes) =>
      DecodeEncode(bytes);
      Success(Encode(bytes))
  }
}
