# Tuple utilities and bitmask option resolution of the COMMS library

This project models two pieces of compile-time machinery from the COMMS
library in comms_champion. Both are C++ template metaprograms, so here they
are pure Dafny functions over sequences, with lemmas about them.

- **Type-list utilities** (`comms/util/Tuple.h`). A message keeps its fields
  as an ordered `std::tuple`, and these helpers work over it.
  - At the type level, a C++ type is a `TypeTag` term: a named type or
    `TupleOf(elems)`. `std::is_same` becomes equality of terms. `IsInTuple`,
    `TupleIsUnique` and `TupleCat` are recursive or direct functions on these
    terms. The `static_assert(IsTuple<...>)` checks become preconditions.
  - At the value level, a tuple is a `seq<T>`. The caller's functor is
    represented by the trace of the calls it receives, in order.
    `tupleForEach`, `tupleForEachWithIdx` and
    `tupleForEachWithTemplateParamIdx` keep the source's recursion on the
    number of remaining elements `TRem`, visiting position
    `TupleSize - TRem`. `static_assert(TRem <= TupleSize)` becomes a
    precondition. `tupleAccumulate` is the same recursion threading an
    accumulator. It is proved equal to the standard left fold and to an
    independent, innermost-first nest of applications.
- **Bitmask field option resolution**
  (`comms/field/details/BitmaskValueBase.h`). The option pack
  (`FixedLength<N>`, `BitIndexingStartsFromMsb`, `DefaultValueInitialiser<T>`,
  `ContentsValidator<T>`) becomes a `seq<BitmaskOption>`. The configuration
  constants become a `BitmaskConfig` record. Each specialisation derives
  from the resolution of the remaining options and shadows one attribute, so
  `Resolve` recurses on the tail and overwrites one field. The lemmas prove:
  - the defaults;
  - that each option changes only its own attribute;
  - that the first option listed of each kind wins;
  - that a repeated option of the same kind is ignored;
  - that options of different kinds may be listed in either order.

The primary template is only declared, so an option of any other kind does
not compile. That becomes the precondition `AllRecognised`.

Two assumptions underlie the type-level model. A `Named` term denotes a
canonical C++ type, with typedefs and aliases already resolved, because
`std::is_same` compares canonical types (`std::uint8_t` and `unsigned char`
are one type). The default serialised length of 8 assumes a typical platform
with 8-bit bytes and a 64-bit `unsigned long long`.

## Model

| member | source | states |
|---|---|---|
| `Types.IsTuple` | src/lib/comms/include/comms/util/Tuple.h:31-43 | true exactly for `TupleOf` terms, the instantiations of `std::tuple` |
| `TupleUtil.IsInTuple` | src/lib/comms/include/comms/util/Tuple.h:47-69 | defined only for tuple types; true iff the type occurs among the tuple's element types; always false for the empty tuple |
| `TupleUtil.TupleIsUnique` | src/lib/comms/include/comms/util/Tuple.h:92-112 | defined only for tuple types; true iff the element types are pairwise distinct (true for the empty tuple) |
| `TupleUtil.TupleCat` | src/lib/comms/include/comms/util/Tuple.h:324-333 | both arguments must be tuples; the result is a tuple of length `|a| + |b|` listing `a`'s element types, then `b`'s |
| `TupleUtil.TupleCatMembership` | src/lib/comms/include/comms/util/Tuple.h:324-333 | a type is in `TupleCat<a, b>` iff it is in `a` or in `b` |
| `TupleUtil.TupleCatIsUnique` | src/lib/comms/include/comms/util/Tuple.h:100-112 | `TupleCat<a, b>` is unique iff `a` and `b` are unique and share no type |
| `TupleUtil.ForEachHelper` | src/lib/comms/include/comms/util/Tuple.h:119-151 | with `rem` elements remaining, the functor receives exactly the last `rem` elements, once each, in index order |
| `TupleUtil.ForEach` | src/lib/comms/include/comms/util/Tuple.h:155-164 | the functor receives every element exactly once, in index order (no call for an empty tuple) |
| `TupleUtil.ForEachWithIdxHelper` | src/lib/comms/include/comms/util/Tuple.h:170-202 | with `rem` remaining, the k-th call receives position `|t| - rem + k` and the element at that position |
| `TupleUtil.ForEachWithIdx` | src/lib/comms/include/comms/util/Tuple.h:206-215 | the k-th call receives element k together with the index k |
| `TupleUtil.ForEachWithIdxSeesRange` | src/lib/comms/include/comms/util/Tuple.h:183-184 | the indices passed by `tupleForEachWithIdx` are exactly 0, 1, ..., n-1 |
| `TupleUtil.ForEachWithTemplateParamIdxHelper` | src/lib/comms/include/comms/util/Tuple.h:220-252 | with `rem` remaining, the k-th call gets template index `|t| - rem + k` and the element there |
| `TupleUtil.ForEachWithTemplateParamIdx` | src/lib/comms/include/comms/util/Tuple.h:256-265 | the k-th call receives element k with template index k |
| `TupleUtil.VisitationsAgree` | src/lib/comms/include/comms/util/Tuple.h:233-234 | the template-index visitation makes the same calls as the run-time-index one, and both see the elements `tupleForEach` sees |
| `TupleUtil.AccumulateHelper` | src/lib/comms/include/comms/util/Tuple.h:273-306 | with `rem` remaining, the result is the left fold of the last `rem` elements starting from the given accumulator |
| `TupleUtil.Accumulate` | src/lib/comms/include/comms/util/Tuple.h:310-320 | `tupleAccumulate` is the left fold of the whole tuple; an empty tuple returns the initial value unchanged |
| `TupleUtil.AccumulateIsNestedApply` | src/lib/comms/include/comms/util/Tuple.h:286-290 | `tupleAccumulate(t, v, f)` equals `f(...f(f(v, t[0]), t[1])..., t[n-1])` built innermost-first |
| `TupleUtil.AccumulateAppend` | src/lib/comms/include/comms/util/Tuple.h:310-320 | accumulating over `a + b` continues over `b` from the value accumulated over `a` |
| `BitmaskValueBase.Resolve` | src/lib/comms/include/comms/field/details/BitmaskValueBase.h:33-111 | only recognised options resolve; each flag is set iff an option of its kind is listed; the length is 8 when no `FixedLength` is listed; each `Has...` flag is true iff its type is recorded |
| `BitmaskValueBase.ResolveNoOptions` | src/lib/comms/include/comms/field/details/BitmaskValueBase.h:36-46 | no options: length `sizeof(unsigned long long)` = 8, bit zero is the LSB, no custom initialiser, no custom validator |
| `BitmaskValueBase.ResolveFixedLength` | src/lib/comms/include/comms/field/details/BitmaskValueBase.h:49-64 | `FixedLength<n>` first sets the length to `n`; every other attribute is that of the remaining options |
| `BitmaskValueBase.ResolveBitIndexingStartsFromMsb` | src/lib/comms/include/comms/field/details/BitmaskValueBase.h:66-78 | `BitIndexingStartsFromMsb` first sets `BitZeroIsMsb` and changes nothing else |
| `BitmaskValueBase.ResolveDefaultValueInitialiser` | src/lib/comms/include/comms/field/details/BitmaskValueBase.h:80-94 | `DefaultValueInitialiser<T>` first sets `HasCustomInitialiser`, records `T` and changes nothing else |
| `BitmaskValueBase.ResolveContentsValidator` | src/lib/comms/include/comms/field/details/BitmaskValueBase.h:97-111 | `ContentsValidator<T>` first sets `HasCustomValidator`, records `T` and changes nothing else |
| `BitmaskValueBase.FirstFixedLengthWins` | src/lib/comms/include/comms/field/details/BitmaskValueBase.h:49-62 | the serialised length is the `N` of the first-listed `FixedLength<N>` |
| `BitmaskValueBase.FirstInitialiserWins` | src/lib/comms/include/comms/field/details/BitmaskValueBase.h:80-94 | the recorded initialiser is the `T` of the first-listed `DefaultValueInitialiser<T>` |
| `BitmaskValueBase.FirstValidatorWins` | src/lib/comms/include/comms/field/details/BitmaskValueBase.h:97-111 | the recorded validator is the `T` of the first-listed `ContentsValidator<T>` |
| `BitmaskValueBase.OnlyOwnAttribute` | src/lib/comms/include/comms/field/details/BitmaskValueBase.h:49-111 | inserting an option anywhere in the list changes at most the attribute of that option's kind |
| `BitmaskValueBase.ShadowedOptionIgnored` | src/lib/comms/include/comms/field/details/BitmaskValueBase.h:49-111 | an option listed after another of the same kind, at any position and with any options after it, has no effect on the resolution |
| `BitmaskValueBase.DistinctKindsCommute` | src/lib/comms/include/comms/field/details/BitmaskValueBase.h:49-111 | adjacent options of different kinds can be swapped without changing the resolution |

## Left out

- `TupleAsAlignedUnion` (Tuple.h:73-88): it depends on `AlignedUnion.h`, which is not part of this model. It is also about memory layout, which this model does not represent.
- `ValueType` of the bitmask base, both the default `long long unsigned` and the `SizeToType<SerialisedLen>` selection: `SizeToType.h` is not part of this model. Only the serialised length is kept.
- The `TField` base class of `BitmaskValueBase` and the inherited constructors (`using Base::BitmaskValueBase`): they carry no configuration.
- `TupleUtil.ForEach`: the trace records the functor's arguments, not its effects. The functor's own behaviour is the caller's code. Calls with side effects on shared state can be expressed by folding the trace. The trace also assumes that every call returns. A functor that throws stops `tupleForEach`, `tupleForEachWithIdx` or `tupleForEachWithTemplateParamIdx` at that element, so later elements are never visited. Exceptions are not modelled.
- `TupleUtil.Accumulate`: the accumulator has one fixed type `V`. In C++ each level of `TupleAccumulateHelper` deduces its own `TValue`. The value is passed as whatever `func` returns and converted to the caller's `TValue` only on return (Tuple.h:278-290, 311). So the fold can run in a wider type, such as `double`, and narrow only once at the end. The model does not capture that change of type, and so it does not capture the difference in result either. A functor that throws ends the fold early, and that is not modelled either.
- The value-level helpers take a `seq<T>` with one element type, where the C++ tuple is heterogeneous. A sum type for `T` recovers the heterogeneous case.
- Perfect forwarding (`std::forward`, lvalue versus rvalue tuples) and `std::decay` in `TupleCat` are C++ value-category details with no counterpart here.
- Everything else in the repository: the framing stack, the GUI, the plugins and the message adapter. Their code is not part of this model.
