/** Regrouping of concatenations, which the round trips use throughout. */
module Sequences {

  lemma {:induction false} Assoc<T>(a: seq<T>, b: seq<T>, c: seq<T>)
    ensures (a + b) + c == a + (b + c)
  {
  }

  lemma {:induction false} EmptyFirst<T>(s: seq<T>)
    ensures [] + s == s
  {
  }
}
