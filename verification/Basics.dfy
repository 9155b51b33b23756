/** Vocabulary shared by every component: optional values, results and machine-word bounds. */
module Basics {

  datatype Option<+T> = None | Some(value: T)

  datatype Result<+T, +E> = Ok(value: T) | Err(error: E)

  /** Largest `std::size_t` on the 64-bit targets of the server. */
  const SIZE_MAX: nat := 0xFFFF_FFFF_FFFF_FFFF

  function Min(a: nat, b: nat): nat {
    if a <= b then a else b
  }

  lemma Associative<T>(a: seq<T>, b: seq<T>, c: seq<T>)
    ensures (a + b) + c == a + (b + c)
  {
  }

  /** Concatenation of pieces, in order. */
  function Join(pieces: seq<string>): string {
    if pieces == [] then "" else Join(pieces[..|pieces| - 1]) + pieces[|pieces| - 1]
  }

  lemma JoinSnoc(pieces: seq<string>, last: string)
    ensures Join(pieces + [last]) == Join(pieces) + last
  {
    assert (pieces + [last])[..|pieces|] == pieces;
  }
}
