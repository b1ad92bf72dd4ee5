/** The C-string view of byte buffers used throughout qcrypt.c: copying a
    kdb+ vector into a zero-terminated stack buffer, measuring it again with
    `strlen`, and comparing it with a literal through `strcmp`. */
module CStrings {

  /** One C `char`/`unsigned char`; only the zero byte is special here. */
  newtype byte = x: int | 0 <= x < 256

  /** `strlen`: the index of the first zero byte. On a buffer without a zero
      byte the scan stops at the end of the buffer. */
  function StrLen(s: seq<byte>): (r: nat)
    ensures r <= |s|
    ensures forall i :: 0 <= i < r ==> s[i] != 0
    ensures r < |s| ==> s[r] == 0
  {
    if s == [] || s[0] == 0 then 0 else 1 + StrLen(s[1..])
  }

  /** The text a C string function sees in buffer `s`: everything before the
      first zero byte. */
  function CStr(s: seq<byte>): (r: seq<byte>)
    ensures 0 !in r
    ensures r <= s
    ensures r == s <==> 0 !in s
    ensures |r| < |s| ==> s[|r|] == 0
  {
    s[..StrLen(s)]
  }

  /** A buffer that starts with a non-zero byte: its text is that byte
      followed by the text of the rest. */
  lemma CStrCons(s: seq<byte>)
    requires s != [] && s[0] != 0
    ensures CStr(s) == [s[0]] + CStr(s[1..])
  {
    assert StrLen(s) == 1 + StrLen(s[1..]);
  }

  /** The zero-free prefix is unique: a prefix of `s` that holds no zero and is
      followed by a zero (or is all of `s`) is exactly the C string of `s`. */
  lemma {:induction false} CStrUnique(s: seq<byte>, p: seq<byte>)
    requires p <= s && 0 !in p
    requires |p| == |s| || s[|p|] == 0
    ensures CStr(s) == p
  {
    assert forall i :: 0 <= i < |p| ==> s[i] == p[i] && p[i] != 0;
  }

  /** Appending after a zero byte, or appending a zero byte, leaves the C
      string unchanged: what follows the terminator is never seen. */
  lemma CStrExtend(s: seq<byte>, t: seq<byte>)
    requires 0 in s || t == [] || t[0] == 0
    ensures CStr(s + t) == CStr(s)
  {
    var p := CStr(s);
    assert p <= s + t;
    if |p| < |s| {
      assert (s + t)[|p|] == s[|p|];
    } else {
      assert p == s;
    }
    CStrUnique(s + t, p);
  }

  /** A copied vector that is then terminated: `strlen` of the copy is at most
      the vector's length `n`, and equals `n` exactly when the vector holds no
      zero byte; the text seen is the vector cut at its first zero byte. */
  lemma TerminatedCStr(s: seq<byte>)
    ensures CStr(s + [0]) == CStr(s)
    ensures StrLen(s + [0]) == StrLen(s) <= |s|
    ensures StrLen(s + [0]) == |s| <==> 0 !in s
    ensures CStr(s + [0]) == s <==> 0 !in s
  {
    CStrExtend(s, [0]);
  }

  /** `strcmp(a, b) == 0` for two zero-terminated buffers: the bytes are
      compared pairwise until they differ or both are zero. It holds exactly
      when the two buffers hold the same text up to their first zero byte. */
  function StrcmpEq(a: seq<byte>, b: seq<byte>): (r: bool)
    requires 0 in a && 0 in b
    ensures r <==> CStr(a) == CStr(b)
    decreases |a|
  {
    if a[0] != b[0] then false
    else if a[0] == 0 then true
    else
      assert 0 in a[1..] && 0 in b[1..] by {
        var i :| 0 <= i < |a| && a[i] == 0;
        var j :| 0 <= j < |b| && b[j] == 0;
        assert a[1..][i - 1] == 0 && b[1..][j - 1] == 0;
      }
      CStrCons(a);
      CStrCons(b);
      StrcmpEq(a[1..], b[1..])
  }

  /** Comparing a zero-free literal with a terminated buffer through `strcmp`
      succeeds exactly when the buffer's text up to its first zero byte is
      that literal; bytes after the first zero play no part. */
  lemma StrcmpEqIff(lit: seq<byte>, buf: seq<byte>)
    requires 0 !in lit && 0 in buf
    ensures StrcmpEq(lit + [0], buf) <==> CStr(buf) == lit
  {
    TerminatedCStr(lit);
  }

  /** The loops of qcrypt.c:64-67 (and 70-73, 178-180, 220, 236): a buffer of
      `n + 1` bytes receives the `n` elements of the vector and a terminating
      zero at index `n`. */
  method CopyToCString(src: seq<byte>) returns (buf: array<byte>)
    ensures buf[..] == src + [0]
  {
    buf := new byte[|src| + 1];
    var i := 0;
    while i < |src|
      invariant 0 <= i <= |src|
      invariant forall k :: 0 <= k < i ==> buf[k] == src[k]
    {
      buf[i] := src[i];
      i := i + 1;
    }
    buf[|src|] := 0;
  }

  /** The salt loop of qcrypt.c:147-149: a buffer of exactly `n` bytes receives
      the `n` elements of the vector, with no terminator. */
  method CopyBytes(src: seq<byte>) returns (buf: array<byte>)
    ensures buf.Length == |src|
    ensures buf[..] == src
  {
    buf := new byte[|src|];
    var i := 0;
    while i < |src|
      invariant 0 <= i <= |src|
      invariant forall k :: 0 <= k < i ==> buf[k] == src[k]
    {
      buf[i] := src[i];
      i := i + 1;
    }
  }
}
