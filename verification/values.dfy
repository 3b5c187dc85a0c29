/** Values a node can hold in its attribute dictionary. */
module Values {

  /** Presence or absence of a value (a missing attribute, a missing parent). */
  datatype Option<+T> = None | Some(value: T)

  /** Hashable atoms: what may be an element of a Python `set`. */
  datatype Scalar = NoneValue | Bool(b: bool) | Int(i: int) | Str(s: string)

  /** A value stored in a node's dictionary: an atom, or a set of atoms (the `index` attribute). */
  datatype Value = Atom(a: Scalar) | SetOf(elems: set<Scalar>)

  /** True when `v` is a Python integer, the only kind of `id` the model admits. */
  predicate IsInt(v: Value)
  {
    v.Atom? && v.a.Int?
  }
}
