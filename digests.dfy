/** The algorithm-name dispatch of `hash` (qcrypt.c:78-99) and `hmac`
    (qcrypt.c:184-205): a caller-supplied name selects one of six digest
    algorithms and, with it, the number of bytes the result has. */
module Digests {
  import opened Wrappers
  import opened CStrings

  datatype Algorithm = Md5 | Sha1 | Sha224 | Sha256 | Sha384 | Sha512

  /** The message-digest size in bits each standard defines: 128 for MD5
      (section 3.5 of RFC 1321) and 160, 224, 256, 384 and 512 for SHA-1,
      SHA-224, SHA-256, SHA-384 and SHA-512 (section 6 of FIPS 180-4). */
  function OutputBits(a: Algorithm): nat
  {
    match a
    case Md5 => 128
    case Sha1 => 160
    case Sha224 => 224
    case Sha256 => 256
    case Sha384 => 384
    case Sha512 => 512
  }

  /** OpenSSL's `MD5_DIGEST_LENGTH`, `SHA_DIGEST_LENGTH` and
      `SHA224/256/384/512_DIGEST_LENGTH`: the number of bytes `bytelength`
      is set to in each branch of the chain. */
  function DigestLength(a: Algorithm): (r: nat)
    ensures 8 * r == OutputBits(a)
  {
    match a
    case Md5 => 16
    case Sha1 => 20
    case Sha224 => 28
    case Sha256 => 32
    case Sha384 => 48
    case Sha512 => 64
  }

  /** The literal each algorithm is selected by: lower-case ASCII letters
      and digits, so never a zero byte. */
  function Name(a: Algorithm): (r: seq<byte>)
    ensures 3 <= |r| <= 6
    ensures 0 !in r
  {
    match a
    case Md5 => [0x6d, 0x64, 0x35]                   // "md5"
    case Sha1 => [0x73, 0x68, 0x61, 0x31]            // "sha1"
    case Sha224 => [0x73, 0x68, 0x61, 0x32, 0x32, 0x34]  // "sha224"
    case Sha256 => [0x73, 0x68, 0x61, 0x32, 0x35, 0x36]  // "sha256"
    case Sha384 => [0x73, 0x68, 0x61, 0x33, 0x38, 0x34]  // "sha384"
    case Sha512 => [0x73, 0x68, 0x61, 0x35, 0x31, 0x32]  // "sha512"
  }

  /** No name holds a zero byte, and no two algorithms share a name. */
  lemma NamesWellFormed()
    ensures forall a :: 0 !in Name(a)
    ensures forall a, b :: Name(a) == Name(b) ==> a == b
  {
    forall a, b | Name(a) == Name(b) ensures a == b {
      if a != b {
        NamesDiffer(a, b);
      }
    }
  }

  lemma NamesDiffer(a: Algorithm, b: Algorithm)
    requires a != b
    ensures Name(a) != Name(b)
  {
    var na, nb := Name(a), Name(b);
    if |na| == |nb| == 6 {
      // the four sha2 names share their first three bytes and differ at index 3 or 4
      assert na[3] != nb[3] || na[4] != nb[4];
    }
  }

  /** The six-entry table on a name's text: the algorithm whose literal the
      text is, or nothing. */
  function Lookup(text: seq<byte>): (r: Option<Algorithm>)
    ensures forall a :: r == Some(a) <==> text == Name(a)
  {
    NamesWellFormed();
    if text == Name(Sha1) then Some(Sha1)
    else if text == Name(Sha224) then Some(Sha224)
    else if text == Name(Sha256) then Some(Sha256)
    else if text == Name(Sha384) then Some(Sha384)
    else if text == Name(Sha512) then Some(Sha512)
    else if text == Name(Md5) then Some(Md5)
    else None
  }

  /** The `strcmp` chain, in the source's order: sha1, sha224, sha256,
      sha384, sha512, md5. `name` is the copied, zero-terminated buffer.
      The branch taken is the table entry for the name's text up to its
      first zero byte; every other text selects nothing.

      `hash` (qcrypt.c:78-99) and `hmac` (qcrypt.c:184-205) each carry their
      own copy of this chain. The two copies test the same six literals in
      the same order and assign the same `*_DIGEST_LENGTH` constants; they
      differ only in whether the branch picks the one-shot digest function
      or the EVP descriptor used by HMAC. One `Dispatch` therefore serves
      both entry points, and what they share follows from that. */
  method Dispatch(name: seq<byte>) returns (r: Option<Algorithm>)
    requires 0 in name
    ensures r == Lookup(CStr(name))
  {
    NamesWellFormed();
    StrcmpEqIff(Name(Sha1), name);
    StrcmpEqIff(Name(Sha224), name);
    StrcmpEqIff(Name(Sha256), name);
    StrcmpEqIff(Name(Sha384), name);
    StrcmpEqIff(Name(Sha512), name);
    StrcmpEqIff(Name(Md5), name);
    if StrcmpEq(Name(Sha1) + [0], name) {
      r := Some(Sha1);
    } else if StrcmpEq(Name(Sha224) + [0], name) {
      r := Some(Sha224);
    } else if StrcmpEq(Name(Sha256) + [0], name) {
      r := Some(Sha256);
    } else if StrcmpEq(Name(Sha384) + [0], name) {
      r := Some(Sha384);
    } else if StrcmpEq(Name(Sha512) + [0], name) {
      r := Some(Sha512);
    } else if StrcmpEq(Name(Md5) + [0], name) {
      r := Some(Md5);
    } else {
      r := None;
    }
  }

  /** Only the text before the first zero byte of a name matters: a valid
      name followed by a zero byte and arbitrary bytes selects the same
      algorithm as the bare name. */
  lemma LookupIgnoresTail(a: Algorithm, tail: seq<byte>)
    ensures Lookup(CStr(Name(a) + [0] + tail)) == Some(a)
  {
    NamesWellFormed();
    CStrExtend(Name(a) + [0], tail);
    CStrExtend(Name(a), [0]);
  }

  /** A name outside the table, such as "sha3", selects nothing. */
  lemma LookupRejectsSha3()
    ensures Lookup(CStr([0x73, 0x68, 0x61, 0x33, 0x00])) == None
  {
    var sha3: seq<byte> := [0x73, 0x68, 0x61, 0x33];
    CStrUnique(sha3 + [0], sha3);
    assert sha3[3] != Name(Sha1)[3];
  }
}
