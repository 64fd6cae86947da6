/**
 * The tuple helpers of comms::util (util/Tuple.h).
 *
 * The type-level metafunctions (IsInTuple, TupleIsUnique, TupleCat) work on
 * `TypeTag` terms.  The value-level helpers (tupleForEach and its two
 * indexed variants, tupleAccumulate) work on a tuple value modelled as a
 * sequence of elements; the caller's functor is represented by the trace of
 * the calls it receives, in the order it receives them.
 *
 * The C++ helpers recurse on the number of remaining elements TRem and visit
 * the element at Idx = TupleSize - TRem; the helper functions below keep that
 * shape, and `static_assert(TRem <= TupleSize)` becomes a precondition.
 */
module TupleUtil {
  import opened Types

  // ---------------------------------------------------------------------
  // Type-level membership and distinctness

  /** `IsInTuple<x, tt>::Value`: `x` is the first element type or is in the
      rest; false for `std::tuple<>`.  The primary template rejects a
      non-tuple second argument with a static assertion. */
  function IsInTuple(x: TypeTag, tt: TypeTag): (r: bool)
    requires IsTuple(tt)
    ensures r <==> x in tt.elems
    ensures tt.elems == [] ==> !r
    decreases |tt.elems|
  {
    if tt.elems == [] then false
    else
      var rest := TupleOf(tt.elems[1..]);
      assert forall i :: 0 < i < |tt.elems| ==> tt.elems[i] == rest.elems[i - 1];
      x == tt.elems[0] || IsInTuple(x, rest)
  }

  /** Pairwise distinctness of a list of types. */
  ghost predicate AllDistinct(s: seq<TypeTag>)
  {
    forall i, j :: 0 <= i < j < |s| ==> s[i] != s[j]
  }

  /** `TupleIsUnique<tt>::Value`: true for `std::tuple<>`; for
      `std::tuple<F, R...>` the first type must not occur in `R...` and
      `R...` must be unique. */
  function TupleIsUnique(tt: TypeTag): (r: bool)
    requires IsTuple(tt)
    ensures r <==> AllDistinct(tt.elems)
    decreases |tt.elems|
  {
    if tt.elems == [] then true
    else
      var rest := TupleOf(tt.elems[1..]);
      assert forall i :: 0 < i < |tt.elems| ==> tt.elems[i] == rest.elems[i - 1];
      !IsInTuple(tt.elems[0], rest) && TupleIsUnique(rest)
  }

  // ---------------------------------------------------------------------
  // Type-level concatenation

  /** `TupleCat<a, b>::Type`: the tuple type listing the element types of
      `a` followed by those of `b`.  Both arguments must be tuples. */
  function TupleCat(a: TypeTag, b: TypeTag): (r: TypeTag)
    requires IsTuple(a) && IsTuple(b)
    ensures IsTuple(r)
    ensures |r.elems| == |a.elems| + |b.elems|
    ensures forall i :: 0 <= i < |a.elems| ==> r.elems[i] == a.elems[i]
    ensures forall j :: 0 <= j < |b.elems| ==> r.elems[|a.elems| + j] == b.elems[j]
  {
    TupleOf(a.elems + b.elems)
  }

  /** A type is in the concatenation iff it is in one of the two halves. */
  lemma TupleCatMembership(x: TypeTag, a: TypeTag, b: TypeTag)
    requires IsTuple(a) && IsTuple(b)
    ensures IsInTuple(x, TupleCat(a, b)) <==> IsInTuple(x, a) || IsInTuple(x, b)
  {
  }

  /** No type is an element of both tuples. */
  ghost predicate NoCommonType(a: TypeTag, b: TypeTag)
    requires IsTuple(a) && IsTuple(b)
  {
    forall x :: IsInTuple(x, a) ==> !IsInTuple(x, b)
  }

  /** No position of `s` holds the type at a position of `u`. */
  ghost predicate NoCommonElement(s: seq<TypeTag>, u: seq<TypeTag>)
  {
    forall i, j :: 0 <= i < |s| && 0 <= j < |u| ==> s[i] != u[j]
  }

  /** Distinctness of a concatenation, stated on positions. */
  lemma AllDistinctAppend(s: seq<TypeTag>, u: seq<TypeTag>)
    ensures AllDistinct(s + u) <==>
      AllDistinct(s) && AllDistinct(u) &&
      NoCommonElement(s, u)
  {
    var c := s + u;
    if AllDistinct(c) {
      forall i, j | 0 <= i < j < |s| ensures s[i] != s[j] {
        assert c[i] == s[i] && c[j] == s[j];
      }
      forall i, j | 0 <= i < j < |u| ensures u[i] != u[j] {
        assert c[|s| + i] == u[i] && c[|s| + j] == u[j];
      }
      forall i, j | 0 <= i < |s| && 0 <= j < |u| ensures s[i] != u[j] {
        assert c[i] == s[i] && c[|s| + j] == u[j];
      }
    }
    if AllDistinct(s) && AllDistinct(u) && NoCommonElement(s, u) {
      forall i, j | 0 <= i < j < |c| ensures c[i] != c[j] {
        if j < |s| {
          assert c[i] == s[i] && c[j] == s[j];
        } else if i < |s| {
          assert c[i] == s[i] && c[j] == u[j - |s|];
        } else {
          assert c[i] == u[i - |s|] && c[j] == u[j - |s|];
        }
      }
    }
  }

  /** Sharing no type is sharing no element at any pair of positions. */
  lemma NoCommonTypeByPosition(a: TypeTag, b: TypeTag)
    requires IsTuple(a) && IsTuple(b)
    ensures NoCommonType(a, b) <==> NoCommonElement(a.elems, b.elems)
  {
    if NoCommonType(a, b) {
      forall i, j | 0 <= i < |a.elems| && 0 <= j < |b.elems|
        ensures a.elems[i] != b.elems[j]
      {
        assert IsInTuple(a.elems[i], a);
      }
    } else {
      var x :| IsInTuple(x, a) && IsInTuple(x, b);
      var i :| 0 <= i < |a.elems| && a.elems[i] == x;
      var j :| 0 <= j < |b.elems| && b.elems[j] == x;
      assert a.elems[i] == b.elems[j];
    }
  }

  /** The concatenation is unique iff both halves are unique and no type
      occurs in both. */
  lemma TupleCatIsUnique(a: TypeTag, b: TypeTag)
    requires IsTuple(a) && IsTuple(b)
    ensures TupleIsUnique(TupleCat(a, b)) <==>
      TupleIsUnique(a) && TupleIsUnique(b) && NoCommonType(a, b)
  {
    AllDistinctAppend(a.elems, b.elems);
    NoCommonTypeByPosition(a, b);
    assert TupleCat(a, b).elems == a.elems + b.elems;
  }

  // ---------------------------------------------------------------------
  // Ordered visitation

  /** One call received by an indexed visitor: the element and its position. */
  datatype Visit<T> = Visit(idx: nat, elem: T)

  /** `TupleForEachHelper<rem>::exec`: calls the functor on the element at
      `|t| - rem`, then recurses on `rem - 1`; nothing happens at zero.
      The result lists the arguments of the calls, in call order. */
  function ForEachHelper<T>(t: seq<T>, rem: nat): (calls: seq<T>)
    requires rem <= |t|
    ensures |calls| == rem
    ensures forall k :: 0 <= k < rem ==> calls[k] == t[|t| - rem + k]
    decreases rem
  {
    if rem == 0 then []
    else [t[|t| - rem]] + ForEachHelper(t, rem - 1)
  }

  /** `tupleForEach(t, func)`: every element is passed to the functor exactly
      once, in index order; an empty tuple causes no call. */
  function ForEach<T>(t: seq<T>): (calls: seq<T>)
    ensures calls == t
  {
    ForEachHelper(t, |t|)
  }

  /** `TupleForEachWithIdxHelper<rem>::exec`: like ForEachHelper, but the
      element's position is passed as a second (run-time) argument. */
  function ForEachWithIdxHelper<T>(t: seq<T>, rem: nat): (calls: seq<Visit<T>>)
    requires rem <= |t|
    ensures |calls| == rem
    ensures forall k :: 0 <= k < rem ==> calls[k] == Visit(|t| - rem + k, t[|t| - rem + k])
    decreases rem
  {
    if rem == 0 then []
    else
      var idx := |t| - rem;
      [Visit(idx, t[idx])] + ForEachWithIdxHelper(t, rem - 1)
  }

  /** `tupleForEachWithIdx(t, func)`: the k-th call receives element k
      together with the index k, so the indices seen are 0, 1, ..., |t|-1. */
  function ForEachWithIdx<T>(t: seq<T>): (calls: seq<Visit<T>>)
    ensures |calls| == |t|
    ensures forall k :: 0 <= k < |t| ==> calls[k].idx == k && calls[k].elem == t[k]
  {
    ForEachWithIdxHelper(t, |t|)
  }

  /** `TupleForEachWithTemplateParamIdxHelper<rem>::exec`: the position is
      passed as the template argument of the functor's call operator rather
      than as a run-time argument.  A trace cannot tell a template argument
      from a run-time one, so this helper yields the same calls as
      ForEachWithIdxHelper; it is kept separate because the source has its
      own recursion for it. */
  function ForEachWithTemplateParamIdxHelper<T>(t: seq<T>, rem: nat): (calls: seq<Visit<T>>)
    requires rem <= |t|
    ensures |calls| == rem
    ensures forall k :: 0 <= k < rem ==> calls[k].idx == |t| - rem + k && calls[k].elem == t[|t| - rem + k]
    decreases rem
  {
    if rem == 0 then []
    else
      var idx := |t| - rem;
      [Visit(idx, t[idx])] + ForEachWithTemplateParamIdxHelper(t, rem - 1)
  }

  /** `tupleForEachWithTemplateParamIdx(t, func)`. */
  function ForEachWithTemplateParamIdx<T>(t: seq<T>): (calls: seq<Visit<T>>)
    ensures |calls| == |t|
    ensures forall k :: 0 <= k < |t| ==> calls[k] == Visit(k, t[k])
  {
    ForEachWithTemplateParamIdxHelper(t, |t|)
  }

  /** The positions passed by an indexed visitation, in call order. */
  function Indices<T>(calls: seq<Visit<T>>): (r: seq<nat>)
    ensures |r| == |calls|
    ensures forall k :: 0 <= k < |calls| ==> r[k] == calls[k].idx
  {
    if calls == [] then [] else [calls[0].idx] + Indices(calls[1..])
  }

  /** The sequence 0, 1, ..., n-1. */
  function Range(n: nat): (r: seq<nat>)
    ensures |r| == n
    ensures forall k :: 0 <= k < n ==> r[k] == k
  {
    if n == 0 then [] else Range(n - 1) + [n - 1]
  }

  /** The index sequence seen by tupleForEachWithIdx is exactly 0..n-1. */
  lemma ForEachWithIdxSeesRange<T>(t: seq<T>)
    ensures Indices(ForEachWithIdx(t)) == Range(|t|)
  {
  }

  /** Both indexed visitations, and the plain one, see the same elements in
      the same order; the two indexed ones also see the same positions. */
  lemma VisitationsAgree<T>(t: seq<T>)
    ensures ForEachWithTemplateParamIdx(t) == ForEachWithIdx(t)
    ensures forall k :: 0 <= k < |t| ==> ForEachWithIdx(t)[k].elem == ForEach(t)[k]
  {
  }

  // ---------------------------------------------------------------------
  // Left fold

  /** The left fold: f(...f(f(v, s[0]), s[1])..., s[|s|-1]), consuming the
      sequence from the front. */
  function FoldLeft<T, V>(s: seq<T>, v: V, f: (V, T) -> V): V
  {
    if s == [] then v else FoldLeft(s[1..], f(v, s[0]), f)
  }

  /** The same nest of applications built from the last element inwards: an
      independent reference for the fold. */
  function NestedApply<T, V>(s: seq<T>, v: V, f: (V, T) -> V): V
  {
    if s == [] then v else f(NestedApply(s[..|s| - 1], v, f), s[|s| - 1])
  }

  /** `TupleAccumulateHelper<rem>::exec`: applies `f` to the accumulator and
      the element at `|t| - rem` and threads the result into the recursion;
      at zero it returns the accumulator. */
  function AccumulateHelper<T, V>(t: seq<T>, rem: nat, v: V, f: (V, T) -> V): (r: V)
    requires rem <= |t|
    ensures r == FoldLeft(t[|t| - rem..], v, f)
    decreases rem
  {
    if rem == 0 then v
    else
      var idx := |t| - rem;
      assert t[idx..][1..] == t[idx + 1..];
      AccumulateHelper(t, rem - 1, f(v, t[idx]), f)
  }

  /** `tupleAccumulate(t, v, f)`. */
  function Accumulate<T, V>(t: seq<T>, v: V, f: (V, T) -> V): (r: V)
    ensures r == FoldLeft(t, v, f)
    ensures t == [] ==> r == v
  {
    assert t[0..] == t;
    AccumulateHelper(t, |t|, v, f)
  }

  /** Folding one more element applies `f` once more on the outside. */
  lemma {:induction false} FoldLeftSnoc<T, V>(s: seq<T>, x: T, v: V, f: (V, T) -> V)
    ensures FoldLeft(s + [x], v, f) == f(FoldLeft(s, v, f), x)
    decreases |s|
  {
    if s == [] {
      assert ([] + [x])[1..] == [];
    } else {
      assert (s + [x])[1..] == s[1..] + [x];
      FoldLeftSnoc(s[1..], x, f(v, s[0]), f);
    }
  }

  /** Folding a concatenation folds the second part from where the first
      part left the accumulator. */
  lemma {:induction false} FoldLeftAppend<T, V>(a: seq<T>, b: seq<T>, v: V, f: (V, T) -> V)
    ensures FoldLeft(a + b, v, f) == FoldLeft(b, FoldLeft(a, v, f), f)
    decreases |a|
  {
    if a == [] {
      assert [] + b == b;
    } else {
      assert (a + b)[1..] == a[1..] + b;
      FoldLeftAppend(a[1..], b, f(v, a[0]), f);
    }
  }

  /** tupleAccumulate(t, v, f) is f(...f(f(v, t[0]), t[1])..., t[n-1]). */
  lemma {:induction false} AccumulateIsNestedApply<T, V>(t: seq<T>, v: V, f: (V, T) -> V)
    ensures Accumulate(t, v, f) == NestedApply(t, v, f)
    decreases |t|
  {
    if t != [] {
      var init, last := t[..|t| - 1], t[|t| - 1];
      assert t == init + [last];
      AccumulateIsNestedApply(init, v, f);
      FoldLeftSnoc(init, last, v, f);
    }
  }

  /** Accumulating over a concatenated tuple accumulates over the first
      part, then continues over the second. */
  lemma AccumulateAppend<T, V>(a: seq<T>, b: seq<T>, v: V, f: (V, T) -> V)
    ensures Accumulate(a + b, v, f) == Accumulate(b, Accumulate(a, v, f), f)
  {
    FoldLeftAppend(a, b, v, f);
  }
}
