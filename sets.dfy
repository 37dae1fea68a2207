/** Small facts about finite sets used when a loop picks an arbitrary element. */
module Sets {

  /** A set other than the empty set has a member, so `var x :| x in s` can choose one. */
  lemma NonEmptyHasMember<T>(s: set<T>) returns (x: T)
    requires s != {}
    ensures x in s
  {
    assert (forall y :: y !in s) ==> s == {};
    x :| x in s;
  }
}
