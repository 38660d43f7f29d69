/** Properties of binary relations. */
module Relations {

  ghost predicate Transitive<T(!new)>(r: (T, T) -> bool) {
    forall a, b, c :: r(a, b) && r(b, c) ==> r(a, c)
  }
}
