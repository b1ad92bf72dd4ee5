# qcrypt: the kdb+ ↔ OpenSSL bridge, modelled in Dafny

qcrypt is a shared library of kdb+ foreign functions (`hash`, `hmac`, `qrand`,
`pbkdf2`, `b64e`, `b64d`) that hand q values to OpenSSL and turn the results
back into q values. This project models the bridge itself. That covers copying
a q vector into a zero-terminated C buffer and re-measuring it with `strlen`.
It covers the `strcmp` chain that turns an algorithm name into a digest length
and a primitive. It covers the loop that copies a fixed-length result into a
fresh byte vector (`ktn(KG, n)`), and the `krr` error paths. The cryptography
is not modelled.

Modules, one per concern of `qcrypt.c`:

- `CStrings` (cstrings.dfy): bytes, `strlen` (`StrLen`), the text a C string
  function sees (`CStr`), `strcmp(...) == 0` (`StrcmpEq`), and the copy loops
  as array methods.
- `KValues` (kvalues.dfy): q values as a tagged datatype (`Atom`, `Vector`,
  tags `KG` = 4 and `KC` = 10) and the output loop `ToKG`.
- `Digests` (digests.dfy): the six algorithms, their digest lengths (16, 20,
  28, 32, 48, 64 bytes, from RFC 1321 and section 6 of FIPS 180-4), their
  names, the name table `Lookup`, and the `strcmp` chain `Dispatch`, a method
  proved to take the table entry for the name's text.
- `Crypto` (crypto.dfy): the OpenSSL calls as opaque function-valued fields of
  a `Library` value passed to every entry point. `Valid` states the only facts
  assumed of them: how many bytes each writes.
- `QCrypt` (qcrypt.dfy): the entry points. Each is a method that follows its
  C function step by step. `Hash`, `Hmac`, `Qrand`, `Pbkdf2` and `B64d` are
  proved equal to a specification function (`HashResult`, `HmacResult`,
  `QrandResult`, `Pbkdf2Result`, `B64dResult`), and the lemmas state what
  follows from those functions. `B64e` states its result directly: a char
  vector holding the encoder's output for all n input bytes.

The behaviour the model makes explicit is truncation. `hash`, `hmac` and
`pbkdf2` (for the password) copy all `n` elements, then pass `strlen` of the
copy to OpenSSL. So every byte after an embedded zero is dropped. The lemmas
`HashIgnoresBytesAfterZero`, `HmacIgnoresKeyBytesAfterZero`,
`Pbkdf2IgnoresPasswordBytesAfterZero` and `Pbkdf2EmbeddedZeroExample` prove
this. `TerminatedCStr` proves that the length handed over equals `n` exactly
when the input has no zero byte. The algorithm name is matched the same way,
so `"md5\0junk"` selects MD5 (`LookupIgnoresTail`). The salt of `pbkdf2`
and the input of `b64e` are passed with their full length. `b64d` measures
its decoded output with `strlen`, so decoded zero bytes cut the result
(`B64dTruncates`).

Inputs the source does not check become preconditions; each is listed under
"## Left out".

## Model

| member | source | states |
|---|---|---|
| CStrings.StrLen | qcrypt.c:102 | the length `strlen` measures is the index of the first zero byte: no zero before it, a zero at it when it is inside the buffer |
| CStrings.CStr | qcrypt.c:209 | the text handed to OpenSSL is the zero-free prefix of the buffer that ends at its first zero byte (a zero follows it unless it is the whole buffer); it is the whole buffer exactly when the buffer holds no zero byte |
| CStrings.TerminatedCStr | qcrypt.c:63-74 | after copying n elements and a terminator, the measured length is at most n, and equals n (the text being the whole input) exactly when the input holds no zero byte |
| CStrings.StrcmpEq | qcrypt.c:78-93 | `strcmp(a, b) == 0`, comparing byte by byte up to the terminators, holds exactly when both buffers hold the same text up to their first zero byte |
| CStrings.StrcmpEqIff | qcrypt.c:78 | `strcmp(literal, buf) == 0` holds exactly when the buffer's text up to its first zero byte equals the literal |
| CStrings.CopyToCString | qcrypt.c:63-74 | the copy loop leaves `buf[i] == x[i]` for every i < n and `buf[n] == 0` in a buffer of n + 1 bytes |
| CStrings.CopyBytes | qcrypt.c:146-150 | the salt loop copies all n bytes into an n-byte buffer, with no terminator |
| KValues.ToKG | qcrypt.c:103-106 | the output is a `KG` vector of exactly the requested length with `output[i] == result[i]` for every i |
| Digests.DigestLength | qcrypt.c:79-95 | `bytelength` is md5 16, sha1 20, sha224 28, sha256 32, sha384 48, sha512 64 bytes: eight bits per byte of the digest size the standard defines (128, 160, 224, 256, 384, 512 bits) |
| Digests.Name | qcrypt.c:78-93 | the six literals "sha1", "sha224", "sha256", "sha384", "sha512", "md5": 3 to 6 bytes, none of them zero |
| Digests.NamesWellFormed | qcrypt.c:78-95 | the six names hold no zero byte and are pairwise distinct, so at most one branch of the chain can match |
| Digests.Lookup | qcrypt.c:78-95 | the name table: a text gives algorithm a exactly when it is a's literal, and any other text gives nothing |
| Digests.Dispatch | qcrypt.c:78-99 | the `strcmp` chain over the terminated name buffer takes exactly the table entry for the buffer's text up to its first zero byte, or none |
| Digests.LookupIgnoresTail | qcrypt.c:184-205 | a valid name followed by a zero byte and arbitrary bytes selects the same algorithm as the bare name |
| Digests.LookupRejectsSha3 | qcrypt.c:96-98 | the name "sha3" is not in the table |
| QCrypt.Hash | qcrypt.c:57-109 | the copy loops, dispatch, digest call and output loop compute exactly `HashResult` |
| QCrypt.HashAccepts | qcrypt.c:100-108 | for an accepted name the result is a `KG` vector of that algorithm's digest length holding the digest of the message's text before its first zero byte |
| QCrypt.HashRejects | qcrypt.c:96-98 | any other name gives the error "Please choose a supported hash function" and no vector |
| QCrypt.HashIgnoresBytesAfterZero | qcrypt.c:102 | two messages that agree up to a zero byte hash to the same result |
| QCrypt.HashWholeMessage | qcrypt.c:102 | the digest covers the whole message exactly when it holds no zero byte, and otherwise covers the prefix before the first zero |
| QCrypt.Hmac | qcrypt.c:168-217 | the three copy loops, dispatch, HMAC call and output loop compute exactly `HmacResult` |
| QCrypt.HmacDispatch | qcrypt.c:184-214 | an accepted name yields a `KG` vector of the digest length holding the HMAC of the message's text keyed by the secret's text; any other name gives the error |
| QCrypt.HmacIgnoresKeyBytesAfterZero | qcrypt.c:209 | secrets that agree up to a zero byte produce the same MAC |
| QCrypt.HashHmacSameTable | qcrypt.c:184-201 | `hash` and `hmac` accept and refuse the same names, with the same error, and accepted results have equal lengths |
| QCrypt.Qrand | qcrypt.c:111-127 | the entry point computes exactly `QrandResult` |
| QCrypt.QrandOutcome | qcrypt.c:116-124 | `qrand` fails, with its message and no vector, exactly when RAND_bytes returns 0; otherwise it returns a `KG` vector of exactly n bytes holding the generator's buffer |
| QCrypt.Pbkdf2 | qcrypt.c:129-165 | the copy loops, derivation call and output loop compute exactly `Pbkdf2Result` |
| QCrypt.Pbkdf2Outcome | qcrypt.c:152-162 | `pbkdf2` fails exactly when the library returns 0; otherwise it returns a `KG` vector of exactly dklen bytes; the salt is passed whole, the password cut at its first zero |
| QCrypt.Pbkdf2IgnoresPasswordBytesAfterZero | qcrypt.c:152 | passwords that agree up to a zero byte derive the same key |
| QCrypt.Pbkdf2EmbeddedZeroExample | qcrypt.c:143-152 | the password bytes 70 61 00 73 73 derive the same key as 70 61 |
| QCrypt.B64e | qcrypt.c:218-233 | the encoder receives all n bytes, zero bytes included, and the result is a char vector of exactly the encoder's output |
| QCrypt.Zeros | qcrypt.c:243 | `calloc` gives a buffer of n zero bytes |
| QCrypt.B64d | qcrypt.c:234-249 | the copy loop, decoder read into a zeroed buffer and `strlen` compute exactly `B64dResult` |
| QCrypt.B64dTruncates | qcrypt.c:243-246 | the result is the decoded bytes cut at their first zero byte, at most n long, and all of them exactly when they hold no zero byte |

## Left out

- The cryptographic algorithms (MD5, SHA-1, SHA-2, HMAC, PBKDF2, the random generator, base64) live in OpenSSL. They are opaque parameters that are only known to write the right number of bytes. So the reference vectors in the header comment of `qcrypt.c` are not checked, and no base64 round trip is stated.
- The BIO object chain of `b64e`/`b64d` (allocation, push, flush, free) is folded into the two functions `b64encode` and `b64read`.
- kdb+ runtime internals (`ktn`, `kpn`, `krr`, reference counting, `k.h`) are not modelled. A q value is a tag with an integer or a byte sequence, and `krr` plus a null return is `Err(message)`.
- Narrowing of the 64-bit vector length `n` into a C `int` is not modelled. Lengths are unbounded.
- Wrong type tags are excluded by preconditions instead of modelled: `Hash`, `Hmac`, `B64e`, `B64d` and the `Pbkdf2` password require a char vector (tag 10), the `Pbkdf2` salt a byte vector (tag 4). With another tag the C code reads an uninitialised buffer, and its behaviour is undefined.
- Qrand requires `x.i >= 0` and Pbkdf2 requires `qdklen.i >= 0`: these values size the variable-length arrays `salt[saltlength]` and `result[dklen]`, and a negative size is undefined behaviour in C.
- The integer arguments are atoms whose value the model reads. The atom's type is not checked, and `Atom.i` is an unbounded integer where C reads the 32-bit `int` field `x->i`.
- `pbkdf2` writes its password terminator one past a `passlen`-byte array (`password[passlen]=0`). The model uses an n + 1 byte buffer, so it shows the behaviour the code evidently intends and not the out-of-bounds write.
- QCrypt.B64dTruncates: the model's `strlen` stops at the end of the n-byte decode buffer. The C `strlen` would read past that buffer when the decoder fills it with no zero byte. For n = 0 it runs on a `calloc(0)` pointer.
- Stack sizing of the variable-length arrays and the `calloc`/`free` lifetime in `hmac` and `b64d` have no functional content and are not modelled.
