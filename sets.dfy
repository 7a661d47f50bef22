/** Finite-set helpers shared by the evaluators and the fish tables. */
module Sets {

  /** Some member of a non-empty set. */
  ghost function Pick<T>(xs: set<T>): (x: T)
    requires xs != {}
    ensures x in xs
  {
    var x :| x in xs; x
  }
}
