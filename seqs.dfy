/** Sequence algebra used where the solver needs a step spelled out on plain
    variables rather than on the larger terms it stands for. */
module Seqs {

  lemma {:induction false} Associate3<T>(x: seq<T>, y: seq<T>, z: seq<T>)
    ensures x + y + z == x + (y + z)
  {
  }

  lemma {:induction false} SplitLast<T>(s: seq<T>)
    requires s != []
    ensures s == s[..|s| - 1] + [s[|s| - 1]]
  {
  }
}
