/**
 * The vocabulary shared by the type-list utilities and the bitmask field
 * options: C++ types are modelled as terms, so that `std::is_same` becomes
 * structural equality of terms.
 */
module Types {

  /** A C++ type as seen by the metaprograms: either a named (non-tuple)
      type or an instantiation `std::tuple<elems...>`.  A `Named` term
      stands for a canonical type, with typedefs and aliases already
      resolved, so that equal terms are exactly the types `std::is_same`
      identifies. */
  datatype TypeTag =
    | Named(name: string)
    | TupleOf(elems: seq<TypeTag>)

  /** `IsTuple<T>::Value`: true exactly for the variants of `std::tuple`. */
  function IsTuple(t: TypeTag): (r: bool)
    ensures r <==> exists elems :: t == TupleOf(elems)
  {
    t.TupleOf?
  }

  datatype Option<T> = None | Some(value: T)
}
