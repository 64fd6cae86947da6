/**
 * Option resolution of the bitmask field base (field/details/BitmaskValueBase.h).
 *
 * In C++ the class template `BitmaskValueBase<TField, TOptions...>` is
 * specialised on its first option; each specialisation derives from the
 * base for the remaining options and redeclares one constant (or type),
 * which shadows the base's.  The primary case with no options supplies the
 * defaults.  Here the option pack is a sequence and the constants form a
 * configuration record built by the same recursion, so that an option
 * listed earlier shadows one of the same kind listed later.
 */
module BitmaskValueBase {
  import opened Types

  /** The options the specialisations recognise, plus any other option
      type: the primary template is only declared, so an option of any
      other kind has no resolution. */
  datatype BitmaskOption =
    | FixedLength(len: nat)
    | BitIndexingStartsFromMsb
    | DefaultValueInitialiser(initialiser: TypeTag)
    | ContentsValidator(validator: TypeTag)
    | Unrecognised(option: TypeTag)

  /** Which attribute of the configuration an option shadows. */
  datatype OptionKind = LengthKind | MsbKind | InitialiserKind | ValidatorKind | NoKind

  function KindOf(o: BitmaskOption): OptionKind
  {
    match o
    case FixedLength(_) => LengthKind
    case BitIndexingStartsFromMsb => MsbKind
    case DefaultValueInitialiser(_) => InitialiserKind
    case ContentsValidator(_) => ValidatorKind
    case Unrecognised(_) => NoKind
  }

  /** Every option in the pack has a specialisation. */
  predicate AllRecognised(opts: seq<BitmaskOption>)
  {
    forall i :: 0 <= i < |opts| ==> !opts[i].Unrecognised?
  }

  /** The protected constants and types a resolved base exposes.  The two
      `Has...` flags are declared next to the type the option records
      (`DefaultValueInitialiser`, `ContentsValidator`), which exists only
      when the flag is true. */
  datatype BitmaskConfig = BitmaskConfig(
    serialisedLen: nat,
    bitZeroIsMsb: bool,
    hasCustomInitialiser: bool,
    defaultValueInitialiser: Option<TypeTag>,
    hasCustomValidator: bool,
    contentsValidator: Option<TypeTag>)

  /** `sizeof(long long unsigned)`, the width of the default ValueType, on
      a platform with 8-bit bytes and a 64-bit `unsigned long long`. */
  const DefaultSerialisedLen: nat := 8

  /** The primary case `BitmaskValueBase<TField>`. */
  const Defaults: BitmaskConfig :=
    BitmaskConfig(DefaultSerialisedLen, false, false, None, false, None)

  /** A flag is set exactly when its recorded type exists. */
  predicate WellFormed(c: BitmaskConfig)
  {
    && c.hasCustomInitialiser == c.defaultValueInitialiser.Some?
    && c.hasCustomValidator == c.contentsValidator.Some?
  }

  /** The position of the first option of kind `k`, if any. */
  ghost predicate IsFirstOfKind(opts: seq<BitmaskOption>, i: nat, k: OptionKind)
  {
    i < |opts| && KindOf(opts[i]) == k &&
    forall j :: 0 <= j < i ==> KindOf(opts[j]) != k
  }

  /** Some option of kind `k` is listed. */
  ghost predicate HasKind(opts: seq<BitmaskOption>, k: OptionKind)
  {
    exists i :: 0 <= i < |opts| && KindOf(opts[i]) == k
  }

  /** `BitmaskValueBase<TField, opts...>`: the specialisation for the first
      option derives from the resolution of the rest and shadows the one
      attribute that option controls. */
  function Resolve(opts: seq<BitmaskOption>): (c: BitmaskConfig)
    requires AllRecognised(opts)
    ensures WellFormed(c)
    ensures c.bitZeroIsMsb <==> HasKind(opts, MsbKind)
    ensures c.hasCustomInitialiser <==> HasKind(opts, InitialiserKind)
    ensures c.hasCustomValidator <==> HasKind(opts, ValidatorKind)
    ensures !HasKind(opts, LengthKind) ==> c.serialisedLen == DefaultSerialisedLen
    decreases |opts|
  {
    if opts == [] then Defaults
    else
      var rest := opts[1..];
      assert forall i :: 0 < i < |opts| ==> opts[i] == rest[i - 1];
      var base := Resolve(rest);
      match opts[0]
      case FixedLength(n) => base.(serialisedLen := n)
      case BitIndexingStartsFromMsb => base.(bitZeroIsMsb := true)
      case DefaultValueInitialiser(t) =>
        base.(hasCustomInitialiser := true, defaultValueInitialiser := Some(t))
      case ContentsValidator(t) =>
        base.(hasCustomValidator := true, contentsValidator := Some(t))
  }

  // ---------------------------------------------------------------------
  // One option at a time: what each specialisation changes

  /** No options: the defaults of the primary case. */
  lemma ResolveNoOptions()
    ensures Resolve([]).serialisedLen == 8
    ensures !Resolve([]).bitZeroIsMsb
    ensures !Resolve([]).hasCustomInitialiser && Resolve([]).defaultValueInitialiser == None
    ensures !Resolve([]).hasCustomValidator && Resolve([]).contentsValidator == None
  {
  }

  /** `FixedLength<n>` sets the serialised length and keeps every other
      attribute of the base. */
  lemma ResolveFixedLength(n: nat, rest: seq<BitmaskOption>)
    requires AllRecognised(rest)
    ensures AllRecognised([FixedLength(n)] + rest)
    ensures Resolve([FixedLength(n)] + rest) == Resolve(rest).(serialisedLen := n)
  {
  }

  /** `BitIndexingStartsFromMsb` sets the bit order and nothing else. */
  lemma ResolveBitIndexingStartsFromMsb(rest: seq<BitmaskOption>)
    requires AllRecognised(rest)
    ensures AllRecognised([BitIndexingStartsFromMsb] + rest)
    ensures Resolve([BitIndexingStartsFromMsb] + rest) == Resolve(rest).(bitZeroIsMsb := true)
  {
  }

  /** `DefaultValueInitialiser<t>` records `t` and sets its flag, nothing else. */
  lemma ResolveDefaultValueInitialiser(t: TypeTag, rest: seq<BitmaskOption>)
    requires AllRecognised(rest)
    ensures AllRecognised([DefaultValueInitialiser(t)] + rest)
    ensures Resolve([DefaultValueInitialiser(t)] + rest) ==
      Resolve(rest).(hasCustomInitialiser := true, defaultValueInitialiser := Some(t))
  {
  }

  /** `ContentsValidator<t>` records `t` and sets its flag, nothing else. */
  lemma ResolveContentsValidator(t: TypeTag, rest: seq<BitmaskOption>)
    requires AllRecognised(rest)
    ensures AllRecognised([ContentsValidator(t)] + rest)
    ensures Resolve([ContentsValidator(t)] + rest) ==
      Resolve(rest).(hasCustomValidator := true, contentsValidator := Some(t))
  {
  }

  // ---------------------------------------------------------------------
  // Precedence: the first-listed option of a kind wins

  /** The serialised length is that of the first `FixedLength` listed. */
  lemma {:induction false} FirstFixedLengthWins(opts: seq<BitmaskOption>, i: nat)
    requires AllRecognised(opts)
    requires IsFirstOfKind(opts, i, LengthKind)
    ensures Resolve(opts).serialisedLen == opts[i].len
    decreases i
  {
    if i > 0 {
      var rest := opts[1..];
      assert forall j :: 0 < j < |opts| ==> opts[j] == rest[j - 1];
      assert IsFirstOfKind(rest, i - 1, LengthKind);
      FirstFixedLengthWins(rest, i - 1);
    }
  }

  /** The recorded initialiser is that of the first `DefaultValueInitialiser`. */
  lemma {:induction false} FirstInitialiserWins(opts: seq<BitmaskOption>, i: nat)
    requires AllRecognised(opts)
    requires IsFirstOfKind(opts, i, InitialiserKind)
    ensures Resolve(opts).defaultValueInitialiser == Some(opts[i].initialiser)
    decreases i
  {
    if i > 0 {
      var rest := opts[1..];
      assert forall j :: 0 < j < |opts| ==> opts[j] == rest[j - 1];
      assert IsFirstOfKind(rest, i - 1, InitialiserKind);
      FirstInitialiserWins(rest, i - 1);
    }
  }

  /** The recorded validator is that of the first `ContentsValidator`. */
  lemma {:induction false} FirstValidatorWins(opts: seq<BitmaskOption>, i: nat)
    requires AllRecognised(opts)
    requires IsFirstOfKind(opts, i, ValidatorKind)
    ensures Resolve(opts).contentsValidator == Some(opts[i].validator)
    decreases i
  {
    if i > 0 {
      var rest := opts[1..];
      assert forall j :: 0 < j < |opts| ==> opts[j] == rest[j - 1];
      assert IsFirstOfKind(rest, i - 1, ValidatorKind);
      FirstValidatorWins(rest, i - 1);
    }
  }

  /** An option listed after one of the same kind is shadowed entirely,
      wherever it stands and whatever follows it. */
  lemma {:induction false} ShadowedOptionIgnored(
    pre: seq<BitmaskOption>, o: BitmaskOption, post: seq<BitmaskOption>)
    requires AllRecognised(pre) && !o.Unrecognised? && AllRecognised(post)
    requires HasKind(pre, KindOf(o))
    ensures AllRecognised(pre + [o] + post) && AllRecognised(pre + post)
    ensures Resolve(pre + [o] + post) == Resolve(pre + post)
    decreases |pre|
  {
    var rest := pre[1..];
    assert (pre + [o] + post)[1..] == rest + [o] + post;
    assert (pre + post)[1..] == rest + post;
    if KindOf(pre[0]) != KindOf(o) {
      var i :| 0 <= i < |pre| && KindOf(pre[i]) == KindOf(o);
      assert rest[i - 1] == pre[i];
      ShadowedOptionIgnored(rest, o, post);
    } else {
      // pre[0] overwrites the only attribute that `o` could have changed
      OnlyOwnAttribute(rest, o, post);
    }
  }

  /** Inserting one option anywhere in the list changes, relative to
      resolving without it, at most the attribute that option controls. */
  lemma {:induction false} OnlyOwnAttribute(
    pre: seq<BitmaskOption>, o: BitmaskOption, post: seq<BitmaskOption>)
    requires AllRecognised(pre) && !o.Unrecognised? && AllRecognised(post)
    ensures AllRecognised(pre + [o] + post) && AllRecognised(pre + post)
    ensures KindOf(o) != LengthKind ==>
      Resolve(pre + [o] + post).serialisedLen == Resolve(pre + post).serialisedLen
    ensures KindOf(o) != MsbKind ==>
      Resolve(pre + [o] + post).bitZeroIsMsb == Resolve(pre + post).bitZeroIsMsb
    ensures KindOf(o) != InitialiserKind ==>
      Resolve(pre + [o] + post).defaultValueInitialiser == Resolve(pre + post).defaultValueInitialiser
    ensures KindOf(o) != ValidatorKind ==>
      Resolve(pre + [o] + post).contentsValidator == Resolve(pre + post).contentsValidator
    decreases |pre|
  {
    var with, without := pre + [o] + post, pre + post;
    assert forall i :: 0 <= i < |with| ==> with[i] in pre || with[i] == o || with[i] in post;
    assert forall i :: 0 <= i < |without| ==> without[i] in pre || without[i] in post;
    if pre == [] {
      assert with[1..] == post && without == post;
    } else {
      var rest := pre[1..];
      assert with[1..] == rest + [o] + post;
      assert without[1..] == rest + post;
      OnlyOwnAttribute(rest, o, post);
    }
  }

  /** Two adjacent options of different kinds can be listed in either order. */
  lemma {:induction false} DistinctKindsCommute(
    pre: seq<BitmaskOption>, a: BitmaskOption, b: BitmaskOption, post: seq<BitmaskOption>)
    requires AllRecognised(pre) && AllRecognised(post)
    requires !a.Unrecognised? && !b.Unrecognised? && KindOf(a) != KindOf(b)
    ensures AllRecognised(pre + [a, b] + post) && AllRecognised(pre + [b, a] + post)
    ensures Resolve(pre + [a, b] + post) == Resolve(pre + [b, a] + post)
    decreases |pre|
  {
    var ab, ba := pre + [a, b] + post, pre + [b, a] + post;
    if pre == [] {
      assert ab[1..] == [b] + post && ab[1..][1..] == post;
      assert ba[1..] == [a] + post && ba[1..][1..] == post;
    } else {
      assert ab[1..] == pre[1..] + [a, b] + post;
      assert ba[1..] == pre[1..] + [b, a] + post;
      DistinctKindsCommute(pre[1..], a, b, post);
    }
  }
}
