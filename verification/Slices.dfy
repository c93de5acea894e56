/**
 Parts of sequences, for bytes and characters alike.
 */
module Slices {

  /** `part` stands in `all` at index `i`. */
  predicate At<T(==)>(all: seq<T>, i: nat, part: seq<T>) {
    i + |part| <= |all| && all[i..i + |part|] == part
  }
}
