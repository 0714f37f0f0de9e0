/** Properties of the comparators ("a has priority over b") the heap is
    parameterised by. */
module Orders {

  ghost predicate Irreflexive<T(!new)>(less: (T, T) -> bool) {
    forall x :: !less(x, x)
  }

  ghost predicate Transitive<T(!new)>(less: (T, T) -> bool) {
    forall x, y, z :: less(x, y) && less(y, z) ==> less(x, z)
  }

  /** "Not less than" is transitive as well: incomparability is an equivalence. */
  ghost predicate NegativelyTransitive<T(!new)>(less: (T, T) -> bool) {
    forall x, y, z :: !less(x, y) && !less(y, z) ==> !less(x, z)
  }

  /** The requirement the C++ standard library places on comparators. */
  ghost predicate StrictWeakOrder<T(!new)>(less: (T, T) -> bool) {
    && Irreflexive(less)
    && Transitive(less)
    && NegativelyTransitive(less)
  }

  lemma StrictWeakOrderIsAsymmetric<T(!new)>(less: (T, T) -> bool, x: T, y: T)
    requires StrictWeakOrder(less)
    ensures less(x, y) ==> !less(y, x)
  {
  }
}
