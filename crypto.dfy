/** The OpenSSL calls qcrypt.c makes, as opaque functions. Their algorithms
    are outside this model; the only facts assumed of them are the sizes of
    what they write, collected in `Valid`. */
module Crypto {
  import opened CStrings
  import opened Digests

  /** What a call that fills a caller buffer leaves behind: its integer
      return code and the buffer's contents afterwards. */
  datatype Filled = Filled(code: int, buf: seq<byte>)

  datatype Library = Library(
    /** SHA1, SHA224, SHA256, SHA384, SHA512, MD5: one-shot digest of a message. */
    digest: (Algorithm, seq<byte>) -> seq<byte>,
    /** HMAC(EVP_xxx(), key, message): RFC 2104 over the chosen digest. */
    hmac: (Algorithm, seq<byte>, seq<byte>) -> seq<byte>,
    /** RAND_bytes(buf, n): 1 on success, 0 on failure, -1 when unsupported.
        It stands for the generator's answer to this one call. */
    randBytes: nat -> Filled,
    /** PKCS5_PBKDF2_HMAC_SHA1(password, salt, iterations, dklen): section 5.2
        of RFC 8018 with HMAC-SHA1; 1 on success, 0 on failure. */
    pbkdf2: (seq<byte>, seq<byte>, int, nat) -> Filled,
    /** A base64 BIO without line breaks writing into a memory BIO: the bytes
        of the memory buffer after BIO_write and BIO_flush. */
    b64encode: seq<byte> -> seq<byte>,
    /** BIO_read(b64, buffer, cap) on a base64 BIO reading a memory buffer:
        the decoded bytes it stores into `buffer`. */
    b64read: (seq<byte>, nat) -> seq<byte>
  )

  /** The size contracts of the OpenSSL calls: a digest or HMAC writes
      exactly the algorithm's digest length, RAND_bytes and the key
      derivation fill exactly the buffer they are given, and BIO_read stores
      at most the number of bytes it is asked for. */
  ghost predicate Valid(lib: Library)
  {
    (forall a, m :: |lib.digest(a, m)| == DigestLength(a)) &&
    (forall a, k, m :: |lib.hmac(a, k, m)| == DigestLength(a)) &&
    (forall n :: |lib.randBytes(n).buf| == n) &&
    (forall p, s, it, dk :: |lib.pbkdf2(p, s, it, dk).buf| == dk) &&
    (forall src, cap :: |lib.b64read(src, cap)| <= cap)
  }
}
