/** A small fact about finite sets of ids used before picking an element. */
module Sets {

  /** A set of ids is empty or has a member. */
  lemma Inhabited(s: set<int>)
    ensures s == {} || exists x :: x in s
  {
    if forall x :: x !in s {
      assert s == {};
    }
  }
}
