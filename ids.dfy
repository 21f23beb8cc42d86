/**
 * Identities shared by every part of the model. Java compares nouns by
 * reference; a noun here is identified by its category ordinal and its
 * ordinal inside that category, both one-based.
 */
module Ids {

  /** The identity of a noun: category number `t` and noun number `num`. */
  datatype NounId = NounId(t: nat, num: nat)

  /**
   * What a noun's pairing slot holds: the two nouns of the mark that pinned
   * the noun to a partner of another category.
   */
  datatype Pairing = Pairing(noun1: NounId, noun2: NounId)

  /** The nouns of category `t`, numbered 1 to `n`, in order. */
  function Category(t: nat, n: nat): (s: seq<NounId>)
    ensures |s| == n
    ensures forall i :: 0 <= i < n ==> s[i] == NounId(t, i + 1)
  {
    seq(n, (i: nat) => NounId(t, i + 1))
  }
}
