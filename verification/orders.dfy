/**
  Properties of a key comparator, as `std::map` needs them. A comparator is
  a function `less(a, b)`; two keys are one map key when neither orders
  before the other.
 */
module Orders {

  type Less = (string, string) -> bool

  /** Neither key orders before the other. */
  predicate Equivalent(less: Less, a: string, b: string) {
    !less(a, b) && !less(b, a)
  }

  ghost predicate Irreflexive(less: Less) {
    forall a :: !less(a, a)
  }

  ghost predicate Asymmetric(less: Less) {
    forall a, b :: less(a, b) ==> !less(b, a)
  }

  ghost predicate EquivalenceTransitive(less: Less) {
    forall a, b, c :: Equivalent(less, a, b) && Equivalent(less, b, c) ==> Equivalent(less, a, c)
  }

  /** What the map relies on for every key it may see. */
  ghost predicate KeyOrder(less: Less) {
    Irreflexive(less) && Asymmetric(less) && EquivalenceTransitive(less)
  }

  ghost predicate TransitiveOn(less: Less, xs: set<string>) {
    forall a, b, c :: a in xs && b in xs && c in xs && less(a, b) && less(b, c) ==> less(a, c)
  }

  /** The requirement the C++ standard places on a map comparator, restricted to the keys in `xs`. */
  ghost predicate StrictWeakOrderOn(less: Less, xs: set<string>) {
    && (forall a :: a in xs ==> !less(a, a))
    && TransitiveOn(less, xs)
    && (forall a, b, c :: a in xs && b in xs && c in xs && Equivalent(less, a, b) && Equivalent(less, b, c)
          ==> Equivalent(less, a, c))
  }

  lemma TransitiveOnSubset(less: Less, xs: set<string>, ys: set<string>)
    requires TransitiveOn(less, ys) && xs <= ys
    ensures TransitiveOn(less, xs)
  {
  }

  /** Transitivity can only fail on three or more keys. */
  lemma PairTransitive(less: Less, x: string, y: string)
    requires Asymmetric(less)
    ensures TransitiveOn(less, {x, y})
  {
  }

  /** Three keys in a cycle are never ordered transitively by an asymmetric relation. */
  lemma CycleNotTransitive(less: Less, a: string, b: string, c: string)
    requires Asymmetric(less)
    requires less(a, b) && less(b, c) && less(c, a)
    ensures !TransitiveOn(less, {a, b, c})
  {
    assert a in {a, b, c} && b in {a, b, c} && c in {a, b, c};
  }
}
