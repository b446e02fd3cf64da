/** Notions several modules share. */
module Common {

  datatype Option<T> = None | Some(value: T)

  type Byte = x: int | 0 <= x < 256

  function Max(a: nat, b: nat): (m: nat) { if a < b then b else a }

  function Min(a: nat, b: nat): (m: nat) { if a < b then a else b }

  predicate Distinct(c: seq<nat>) {
    forall j, k :: 0 <= j < k < |c| ==> c[j] != c[k]
  }

  /** The range of a 32-bit unsigned integer. */
  const WORD: nat := 0x1_0000_0000
}
