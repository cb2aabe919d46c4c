/** A fact about finite sets of numbers that the solver does not find by itself. */
module Sets {

  lemma SomeElement(s: set<int>)
    ensures s != {} ==> exists x :: x in s
  {
    if forall x :: x !in s {
      assert s == {};
    }
  }
}
