/** Result types, machine widths and small sequence facts shared by the other modules. */
module Common {
  datatype Option<+T> = None | Some(value: T)

  datatype Result<+T, +E> = Ok(value: T) | Err(error: E)

  const U32_MODULUS: int := 0x1_0000_0000
  const U64_MODULUS: int := 0x1_0000_0000_0000_0000
  const U64_MAX: int := U64_MODULUS - 1

  type Byte = n: int | 0 <= n < 256

  /** An unsigned 64-bit value. */
  type U64 = n: int | 0 <= n <= U64_MAX

  ghost predicate NoRepeats<T>(s: seq<T>) {
    forall i, j :: 0 <= i < j < |s| ==> s[i] != s[j]
  }

  lemma Enumerate<T>(s: set<T>) returns (e: seq<T>)
    ensures NoRepeats(e) && forall x :: x in e <==> x in s
    decreases s
  {
    if s == {} {
      e := [];
    } else {
      var x :| x in s;
      var front := Enumerate(s - {x});
      e := front + [x];
    }
  }
}
