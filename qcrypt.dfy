/** The five kdb+ entry points of qcrypt.c. Each method follows its C
    function step by step (copy loops, `strlen`, dispatch, library call,
    output loop) and is proved equal to a specification function; the
    lemmas after each specification state what the bridge promises. */
module QCrypt {
  import opened Wrappers
  import opened CStrings
  import opened KValues
  import opened Digests
  import opened Crypto

  const UnsupportedHash: string := "Please choose a supported hash function"
  const RandFailure: string := "Random number generation failure"
  const Pbkdf2Failure: string := "PKCS5_PBKDF2_HMAC_SHA1 failed"

  // ---------------------------------------------------------------- hash

  /** `hash[message; name]`: the digest of the message text up to its first
      zero byte, with the algorithm the name's text selects. */
  function HashResult(message: seq<byte>, name: seq<byte>, lib: Library): Result<K>
  {
    match Lookup(CStr(name + [0]))
    case None => Err(UnsupportedHash)
    case Some(a) => Ok(Vector(KG, lib.digest(a, CStr(message + [0]))))
  }

  method Hash(x: K, y: K, lib: Library) returns (r: Result<K>)
    requires IsCharVector(x) && IsCharVector(y)
    requires Valid(lib)
    ensures r == HashResult(x.elems, y.elems, lib)
  {
    var message := CopyToCString(x.elems);
    var hashfunction := CopyToCString(y.elems);
    var alg := Dispatch(hashfunction[..]);
    if alg.None? {
      return Err(UnsupportedHash);
    }
    var bytelength := DigestLength(alg.value);
    var result := lib.digest(alg.value, message[..StrLen(message[..])]);
    assert result[..bytelength] == result;
    var output := ToKG(result, bytelength);
    return Ok(output);
  }

  /** A name whose text is one of the six literals yields a byte vector of
      that algorithm's digest length, holding the digest of the message's
      text before its first zero byte. */
  lemma HashAccepts(message: seq<byte>, name: seq<byte>, lib: Library, a: Algorithm)
    requires Valid(lib)
    requires CStr(name) == Name(a)
    ensures HashResult(message, name, lib).Ok?
    ensures HashResult(message, name, lib).value.t == KG
    ensures |HashResult(message, name, lib).value.elems| == DigestLength(a)
    ensures HashResult(message, name, lib).value.elems == lib.digest(a, CStr(message))
  {
    TerminatedCStr(name);
    TerminatedCStr(message);
  }

  /** Every other name is refused with the error message and no vector. */
  lemma HashRejects(message: seq<byte>, name: seq<byte>, lib: Library)
    requires forall a :: CStr(name) != Name(a)
    ensures HashResult(message, name, lib) == Err(UnsupportedHash)
  {
    TerminatedCStr(name);
  }

  /** Bytes after an embedded zero in the message never reach the digest:
      two messages that agree up to a zero byte hash alike. */
  lemma HashIgnoresBytesAfterZero(u: seq<byte>, v: seq<byte>, w: seq<byte>, name: seq<byte>, lib: Library)
    ensures HashResult(u + [0] + v, name, lib) == HashResult(u + [0] + w, name, lib)
  {
    CStrExtend(u + [0], v + [0]);
    CStrExtend(u + [0], w + [0]);
    assert u + [0] + v + [0] == (u + [0]) + (v + [0]);
    assert u + [0] + w + [0] == (u + [0]) + (w + [0]);
  }

  /** The digest covers the whole message exactly when it has no zero byte. */
  lemma HashWholeMessage(message: seq<byte>, name: seq<byte>, lib: Library, a: Algorithm)
    requires Valid(lib) && CStr(name) == Name(a)
    ensures HashResult(message, name, lib).Ok?
    ensures 0 !in message ==> HashResult(message, name, lib).value.elems == lib.digest(a, message)
    ensures 0 in message ==> HashResult(message, name, lib).value.elems == lib.digest(a, message[..StrLen(message)])
    ensures 0 in message <==> |CStr(message)| < |message|
  {
    HashAccepts(message, name, lib, a);
  }

  // ---------------------------------------------------------------- hmac

  /** `hmac[secret; message; name]`: the HMAC of the message's text under the
      secret's text (each cut at its first zero byte) with the algorithm the
      name's text selects. */
  function HmacResult(secret: seq<byte>, message: seq<byte>, name: seq<byte>, lib: Library): Result<K>
  {
    match Lookup(CStr(name + [0]))
    case None => Err(UnsupportedHash)
    case Some(a) => Ok(Vector(KG, lib.hmac(a, CStr(secret + [0]), CStr(message + [0]))))
  }

  method Hmac(x: K, y: K, f: K, lib: Library) returns (r: Result<K>)
    requires IsCharVector(x) && IsCharVector(y) && IsCharVector(f)
    requires Valid(lib)
    ensures r == HmacResult(x.elems, y.elems, f.elems, lib)
  {
    var secret := CopyToCString(x.elems);
    var message := CopyToCString(y.elems);
    var hashfunction := CopyToCString(f.elems);
    var alg := Dispatch(hashfunction[..]);
    if alg.None? {
      return Err(UnsupportedHash);
    }
    var bytelength := DigestLength(alg.value);
    var result := lib.hmac(alg.value, secret[..StrLen(secret[..])], message[..StrLen(message[..])]);
    assert result[..bytelength] == result;
    var output := ToKG(result, bytelength);
    return Ok(output);
  }

  /** A name whose text is one of the six literals yields a byte vector of
      that algorithm's digest length holding the HMAC of the message's text
      keyed by the secret's text; any other name is refused. */
  lemma HmacDispatch(secret: seq<byte>, message: seq<byte>, name: seq<byte>, lib: Library)
    requires Valid(lib)
    ensures forall a :: CStr(name) == Name(a) ==>
      HmacResult(secret, message, name, lib) == Ok(Vector(KG, lib.hmac(a, CStr(secret), CStr(message)))) &&
      |lib.hmac(a, CStr(secret), CStr(message))| == DigestLength(a)
    ensures (forall a :: CStr(name) != Name(a)) ==> HmacResult(secret, message, name, lib) == Err(UnsupportedHash)
  {
    TerminatedCStr(name);
    TerminatedCStr(secret);
    TerminatedCStr(message);
    if Lookup(CStr(name + [0])).Some? {
      assert CStr(name) == Name(Lookup(CStr(name + [0])).value);
    }
  }

  /** A zero byte inside the secret ends the key: secrets that agree up to a
      zero byte authenticate alike. */
  lemma HmacIgnoresKeyBytesAfterZero(u: seq<byte>, v: seq<byte>, w: seq<byte>, message: seq<byte>, name: seq<byte>, lib: Library)
    ensures HmacResult(u + [0] + v, message, name, lib) == HmacResult(u + [0] + w, message, name, lib)
  {
    CStrExtend(u + [0], v + [0]);
    CStrExtend(u + [0], w + [0]);
    assert u + [0] + v + [0] == (u + [0]) + (v + [0]);
    assert u + [0] + w + [0] == (u + [0]) + (w + [0]);
  }

  /** `hash` and `hmac` share one name table: for every name both accept or
      both refuse it, and accepted results have the same length. */
  lemma HashHmacSameTable(message: seq<byte>, secret: seq<byte>, name: seq<byte>, lib: Library)
    requires Valid(lib)
    ensures HashResult(message, name, lib).Ok? <==> HmacResult(secret, message, name, lib).Ok?
    ensures HashResult(message, name, lib).Err? ==> HashResult(message, name, lib) == HmacResult(secret, message, name, lib)
    ensures HashResult(message, name, lib).Ok? ==>
      |HashResult(message, name, lib).value.elems| == |HmacResult(secret, message, name, lib).value.elems|
  {
  }

  // ---------------------------------------------------------------- qrand

  /** `qrand n`: n bytes from RAND_bytes, or an error when it returns 0. */
  function QrandResult(n: nat, lib: Library): Result<K>
  {
    var call := lib.randBytes(n);
    if call.code == 0 then Err(RandFailure) else Ok(Vector(KG, call.buf))
  }

  method Qrand(x: K, lib: Library) returns (r: Result<K>)
    requires x.Atom? && x.i >= 0
    requires Valid(lib)
    ensures r == QrandResult(x.i, lib)
  {
    var saltlength := x.i;
    var call := lib.randBytes(saltlength);
    if call.code == 0 {
      return Err(RandFailure);
    }
    assert call.buf[..saltlength] == call.buf;
    var output := ToKG(call.buf, saltlength);
    return Ok(output);
  }

  /** `qrand` fails exactly when RAND_bytes returns 0, and then builds no
      vector; any other return code (1, and also -1) yields a byte vector of
      exactly n bytes holding the generator's buffer. */
  lemma QrandOutcome(n: nat, lib: Library)
    requires Valid(lib)
    ensures QrandResult(n, lib).Err? <==> lib.randBytes(n).code == 0
    ensures QrandResult(n, lib).Err? ==> QrandResult(n, lib).msg == RandFailure
    ensures QrandResult(n, lib).Ok? ==>
      var out := QrandResult(n, lib).value;
      out.Vector? && out.t == KG && |out.elems| == n && out.elems == lib.randBytes(n).buf
  {
  }

  // ---------------------------------------------------------------- pbkdf2

  /** `pbkdf2[password; salt; iterations; dklen]`: the key derived from the
      password's text up to its first zero byte and the whole salt, or an
      error when the library returns 0. */
  function Pbkdf2Result(password: seq<byte>, salt: seq<byte>, iterations: int, dklen: nat, lib: Library): Result<K>
  {
    var call := lib.pbkdf2(CStr(password + [0]), salt, iterations, dklen);
    if call.code == 0 then Err(Pbkdf2Failure) else Ok(Vector(KG, call.buf))
  }

  method Pbkdf2(qpassword: K, qsalt: K, qiterations: K, qdklen: K, lib: Library) returns (r: Result<K>)
    requires IsCharVector(qpassword) && IsByteVector(qsalt)
    requires qiterations.Atom? && qdklen.Atom? && qdklen.i >= 0
    requires Valid(lib)
    ensures r == Pbkdf2Result(qpassword.elems, qsalt.elems, qiterations.i, qdklen.i, lib)
  {
    var iterations := qiterations.i;
    var dklen := qdklen.i;
    var password := CopyToCString(qpassword.elems);
    var salt := CopyBytes(qsalt.elems);
    var call := lib.pbkdf2(password[..StrLen(password[..])], salt[..], iterations, dklen);
    if call.code == 0 {
      return Err(Pbkdf2Failure);
    }
    assert call.buf[..dklen] == call.buf;
    var output := ToKG(call.buf, dklen);
    return Ok(output);
  }

  /** `pbkdf2` fails exactly when the library returns 0; otherwise it yields
      a byte vector of exactly dklen bytes. The salt is passed whole, zero
      bytes included, while the password is cut at its first zero byte. */
  lemma Pbkdf2Outcome(password: seq<byte>, salt: seq<byte>, iterations: int, dklen: nat, lib: Library)
    requires Valid(lib)
    ensures var call := lib.pbkdf2(CStr(password), salt, iterations, dklen);
      (Pbkdf2Result(password, salt, iterations, dklen, lib).Err? <==> call.code == 0) &&
      (call.code == 0 ==> Pbkdf2Result(password, salt, iterations, dklen, lib) == Err(Pbkdf2Failure)) &&
      (call.code != 0 ==> Pbkdf2Result(password, salt, iterations, dklen, lib) == Ok(Vector(KG, call.buf)) &&
                          |call.buf| == dklen)
  {
    TerminatedCStr(password);
  }

  /** Passwords that agree up to a zero byte derive the same key. */
  lemma Pbkdf2IgnoresPasswordBytesAfterZero(u: seq<byte>, v: seq<byte>, w: seq<byte>, salt: seq<byte>, iterations: int, dklen: nat, lib: Library)
    ensures Pbkdf2Result(u + [0] + v, salt, iterations, dklen, lib) == Pbkdf2Result(u + [0] + w, salt, iterations, dklen, lib)
  {
    CStrExtend(u + [0], v + [0]);
    CStrExtend(u + [0], w + [0]);
    assert u + [0] + v + [0] == (u + [0]) + (v + [0]);
    assert u + [0] + w + [0] == (u + [0]) + (w + [0]);
  }

  /** The password "pa\0ss" (bytes 0x70 0x61 0x00 0x73 0x73) derives the same
      key as "pa": everything from the embedded zero on is dropped. */
  lemma Pbkdf2EmbeddedZeroExample(salt: seq<byte>, iterations: int, dklen: nat, lib: Library)
    ensures Pbkdf2Result([0x70, 0x61, 0x00, 0x73, 0x73], salt, iterations, dklen, lib)
         == Pbkdf2Result([0x70, 0x61], salt, iterations, dklen, lib)
  {
    var withZero: seq<byte> := [0x70, 0x61, 0x00, 0x73, 0x73];
    var plain: seq<byte> := [0x70, 0x61];
    CStrUnique(withZero + [0], plain);
    CStrUnique(plain + [0], plain);
  }

  // ---------------------------------------------------------------- base64

  /** `b64e`: the vector is copied and terminated, but BIO_write is given the
      full length, so all n bytes are encoded, zero bytes included; the
      result is a char vector of exactly the memory buffer's length. */
  method B64e(x: K, lib: Library) returns (output: K)
    requires IsCharVector(x)
    ensures output.Vector? && output.t == KC
    ensures output.elems == lib.b64encode(x.elems)
  {
    var lenx := |x.elems|;
    var input := CopyToCString(x.elems);
    var encoded := lib.b64encode(input[..lenx]);
    output := Vector(KC, encoded);
  }

  function Zeros(n: nat): (r: seq<byte>)
    ensures |r| == n && forall i :: 0 <= i < n ==> r[i] == 0
  {
    seq(n, _ => 0)
  }

  /** `b64d`: the decoder reads the terminated copy (n + 1 bytes) into a
      zero-filled buffer of n bytes, and the result is that buffer measured
      with `strlen`. */
  function B64dResult(input: seq<byte>, lib: Library): K
  {
    var decoded := lib.b64read(input + [0], |input|);
    var buffer := if |decoded| <= |input| then decoded + Zeros(|input| - |decoded|) else decoded;
    Vector(KC, CStr(buffer))
  }

  method B64d(x: K, lib: Library) returns (output: K)
    requires IsCharVector(x)
    requires Valid(lib)
    ensures output == B64dResult(x.elems, lib)
  {
    var lenx := |x.elems|;
    var input := CopyToCString(x.elems);
    var decoded := lib.b64read(input[..], lenx);
    var buffer := decoded + Zeros(lenx - |decoded|);
    output := Vector(KC, buffer[..StrLen(buffer)]);
  }

  /** The decoded bytes come back cut at their first zero byte: the result
      is at most n bytes long, and it is all of the decoded data exactly
      when that holds no zero byte. */
  lemma B64dTruncates(input: seq<byte>, lib: Library)
    requires Valid(lib)
    ensures var decoded := lib.b64read(input + [0], |input|);
      var out := B64dResult(input, lib);
      out.t == KC && out.elems == CStr(decoded) && |out.elems| <= |input| &&
      (out.elems == decoded <==> 0 !in decoded)
  {
    var decoded := lib.b64read(input + [0], |input|);
    var pad := Zeros(|input| - |decoded|);
    CStrExtend(decoded, pad);
  }
}
