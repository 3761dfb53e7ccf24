/** What several modules share. */
module Basics {

  datatype Option<+T> = None | Some(value: T)

  lemma MulMono(x: int, y: int, b: nat)
    requires x <= y
    ensures x * b <= y * b
  {
  }
}
