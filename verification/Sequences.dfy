/** Sequences of sequences. */
module Sequences {

  /** The pieces one after the other. */
  function Flatten<T>(s: seq<seq<T>>): seq<T>
  {
    if s == [] then [] else s[0] + Flatten(s[1..])
  }

  lemma {:induction false} FlattenPush<T>(s: seq<seq<T>>, x: seq<T>)
    ensures Flatten(s + [x]) == Flatten(s) + x
    decreases |s|
  {
    if s == [] {
      assert [x][1..] == [];
    } else {
      assert (s + [x])[1..] == s[1..] + [x];
      FlattenPush(s[1..], x);
      assert s[0] + (Flatten(s[1..]) + x) == Flatten(s) + x;
    }
  }
}
