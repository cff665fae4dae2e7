/** Sequences of sequences. */
module Sequences {

  /** The parts, one after another. */
  function Flattened<T>(parts: seq<seq<T>>): seq<T> {
    if parts == [] then [] else Flattened(parts[..|parts| - 1]) + parts[|parts| - 1]
  }

  lemma {:induction false} FlattenedConcat<T>(a: seq<seq<T>>, b: seq<seq<T>>)
    ensures Flattened(a + b) == Flattened(a) + Flattened(b)
  {
    if b == [] {
      assert a + b == a;
    } else {
      FlattenedConcat(a, b[..|b| - 1]);
      assert (a + b)[..|a + b| - 1] == a + b[..|b| - 1];
      assert Flattened(a) + (Flattened(b[..|b| - 1]) + b[|b| - 1]) == (Flattened(a) + Flattened(b[..|b| - 1])) + b[|b| - 1];
    }
  }
}
