/**
 Bytes as the C++ sources see them: eight-bit characters.
 */
module Octets {
  type Octet = c: char | c as int < 256

  type Bytes = seq<Octet>

  datatype Option<+T> = None | Some(value: T)

  /** The index of the first such character from there on, or the length. */
  function First(s: string, c: char, from: nat): (i: nat)
    requires from <= |s|
    ensures from <= i <= |s| && (i < |s| ==> s[i] == c)
    ensures forall j | from <= j < i :: s[j] != c
    decreases |s| - from
  {
    if from == |s| || s[from] == c then from else First(s, c, from + 1)
  }

  function Min(a: nat, b: nat): nat { if a <= b then a else b }
}
