/** kdb+ values as the bridge sees them: a type tag and either an integer
    atom or a vector of bytes. Reference counting and the rest of the
    runtime's object header are not part of this model. */
module KValues {
  import opened CStrings

  /** Type tag of a byte vector (`KG`). */
  const KG: int := 4
  /** Type tag of a char vector (`KC`), the type of a q string. */
  const KC: int := 10

  datatype K =
    | Atom(t: int, i: int)               // x->t and x->i
    | Vector(t: int, elems: seq<byte>)   // x->t, x->n == |elems| and kC(x) / kG(x)

  predicate IsCharVector(x: K) { x.Vector? && x.t == KC }
  predicate IsByteVector(x: K) { x.Vector? && x.t == KG }

  /** `K output = ktn(KG, len)` followed by the loop that copies the first
      `len` bytes of a fixed-length result into `kG(output)`
      (qcrypt.c:103-106, 121-124, 159-162, 211-214). */
  method ToKG(result: seq<byte>, len: nat) returns (output: K)
    requires len <= |result|
    ensures output == Vector(KG, result[..len])
  {
    var data := new byte[len];
    var i := 0;
    while i < len
      invariant 0 <= i <= len
      invariant forall k :: 0 <= k < i ==> data[k] == result[k]
    {
      data[i] := result[i];
      i := i + 1;
    }
    output := Vector(KG, data[..]);
  }
}
