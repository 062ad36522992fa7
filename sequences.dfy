/** Facts about sequence concatenation that the proofs cite by name. */
module Sequences {
  lemma {:induction false} Associative<T>(a: seq<T>, b: seq<T>, c: seq<T>)
    ensures (a + b) + c == a + (b + c)
  {
  }
}
