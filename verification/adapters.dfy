/** The conversion pairs the header defines for generic containers and wrappers:
    std::vector, std::set and std::unordered_set, optional, and std::shared_ptr.
    Each takes the element type's own pair (enc, dec) and the element type's
    default value dflt, as the C++ templates take them from overload resolution. */
module Adapters {
  import opened Wrappers
  import opened Variants
  import opened Conversion

  /** The elements variant(x) produces for each x of xs, in order. */
  function EncodeEach<T>(xs: seq<T>, enc: Encoder<T>): (r: seq<Variant>)
    ensures |r| == |xs|
    ensures forall i :: 0 <= i < |xs| ==> r[i] == Construct(xs[i], enc)
  {
    if xs == [] then [] else [Construct(xs[0], enc)] + EncodeEach(xs[1..], enc)
  }

  /** The decoding loop the container adapters share: as<T>() on each element in
      order until one throws. out holds the values converted before that point. */
  function DecodeEach<T>(vars: seq<Variant>, dec: Decoder<T>, dflt: T): (r: Deserialized<seq<T>>)
    ensures |r.out| <= |vars|
    ensures forall i :: 0 <= i < |r.out| ==> As(vars[i], dec, dflt) == Success(r.out[i])
    ensures r.thrown.None? ==> |r.out| == |vars|
    ensures r.thrown.Some? ==>
              |r.out| < |vars| && As(vars[|r.out|], dec, dflt) == Failure(r.thrown.value)
  {
    if vars == [] then Deserialized([], None)
    else
      match As(vars[0], dec, dflt)
      case Failure(e) => Deserialized([], Some(e))
      case Success(x) =>
        var rest := DecodeEach(vars[1..], dec, dflt);
        assert forall i :: 1 <= i < |vars| ==> vars[i] == vars[1..][i - 1];
        Deserialized([x] + rest.out, rest.thrown)
  }

  /** Decoding the encoding of xs gives xs back, with nothing thrown, whenever
      every element of xs round-trips on its own. */
  lemma {:induction false} DecodeEachInvertsEncodeEach<T>(xs: seq<T>, enc: Encoder<T>, dec: Decoder<T>, dflt: T)
    requires forall i :: 0 <= i < |xs| ==> RoundTrips(enc, dec, dflt, xs[i])
    ensures DecodeEach(EncodeEach(xs, enc), dec, dflt) == Deserialized(xs, None)
  {
    var vars := EncodeEach(xs, enc);
    var r := DecodeEach(vars, dec, dflt);
    assert |r.out| == |xs|;
    forall i | 0 <= i < |xs|
      ensures r.out[i] == xs[i]
    {
      assert As(vars[i], dec, dflt) == Success(xs[i]);
    }
    assert r.out == xs;
  }

  // ---------------------------------------------------------------- std::vector

  /** to_variant(const std::vector<T>&, variant&): an array of variant(t[i]), in
      order. Whatever v held before is replaced. */
  function VectorToVariant<T>(t: seq<T>, v: Variant, enc: Encoder<T>): (r: Variant)
    ensures IsArray(r) && |r.elems| == |t|
    ensures forall i :: 0 <= i < |t| ==> r.elems[i] == Construct(t[i], enc)
  {
    FromVariants(EncodeEach(t, enc))
  }

  /** from_variant(const variant&, std::vector<T>&): the const get_array() throws,
      leaving tmp untouched, unless v is an array; otherwise tmp is cleared and
      receives as<T>() of each element in order, up to the first that throws. */
  function VectorFromVariant<T>(v: Variant, tmp: seq<T>, dec: Decoder<T>, dflt: T): (r: Deserialized<seq<T>>)
    ensures !IsArray(v) ==> r == Deserialized(tmp, Some(TypeMismatch(GetType(v))))
    ensures IsArray(v) ==> |r.out| <= |v.elems|
    ensures IsArray(v) ==>
              forall i :: 0 <= i < |r.out| ==> As(v.elems[i], dec, dflt) == Success(r.out[i])
    ensures IsArray(v) && r.thrown.None? ==> |r.out| == |v.elems|
    ensures IsArray(v) && r.thrown.Some? ==>
              |r.out| < |v.elems| && As(v.elems[|r.out|], dec, dflt) == Failure(r.thrown.value)
  {
    match GetArray(v)
    case Failure(e) => Deserialized(tmp, Some(e))
    case Success(vars) => DecodeEach(vars, dec, dflt)
  }

  /** The prior contents of the target vector never matter once v is an array. */
  lemma VectorFromVariantDiscardsPrior<T>(v: Variant, tmp1: seq<T>, tmp2: seq<T>, dec: Decoder<T>, dflt: T)
    requires IsArray(v)
    ensures VectorFromVariant(v, tmp1, dec, dflt) == VectorFromVariant(v, tmp2, dec, dflt)
  {
  }

  /** Vector round trip: decoding the encoding of t yields t, whatever the target
      held before, whenever each element round-trips. */
  lemma VectorRoundTrip<T>(t: seq<T>, v: Variant, tmp: seq<T>, enc: Encoder<T>, dec: Decoder<T>, dflt: T)
    requires forall i :: 0 <= i < |t| ==> RoundTrips(enc, dec, dflt, t[i])
    ensures VectorFromVariant(VectorToVariant(t, v, enc), tmp, dec, dflt) == Deserialized(t, None)
  {
    assert VectorToVariant(t, v, enc).elems == EncodeEach(t, enc);
    DecodeEachInvertsEncodeEach(t, enc, dec, dflt);
  }

  /** The vector pair, packaged as the pair of the type std::vector<T>. */
  function VectorEncoder<T>(enc: Encoder<T>): Encoder<seq<T>> {
    (t: seq<T>, v: Variant) => VectorToVariant(t, v, enc)
  }

  function VectorDecoder<T>(dec: Decoder<T>, dflt: T): Decoder<seq<T>> {
    (v: Variant, tmp: seq<T>) => VectorFromVariant(v, tmp, dec, dflt)
  }

  /** The vector pair round-trips as a pair in its own right, so it nests:
      std::vector<std::vector<T>> round-trips whenever T does. */
  lemma VectorPairRoundTrips<T>(t: seq<T>, enc: Encoder<T>, dec: Decoder<T>, dflt: T)
    requires forall i :: 0 <= i < |t| ==> RoundTrips(enc, dec, dflt, t[i])
    ensures RoundTrips(VectorEncoder(enc), VectorDecoder(dec, dflt), [], t)
  {
    VectorRoundTrip(t, NullVariant(), [], enc, dec, dflt);
  }

  // ------------------------------------------------ std::set, std::unordered_set

  /** No element occurs twice. */
  ghost predicate Distinct<T>(xs: seq<T>) {
    forall i, j :: 0 <= i < j < |xs| ==> xs[i] != xs[j]
  }

  /** order is an iteration order of s: each member exactly once. */
  ghost predicate Enumerates<T>(order: seq<T>, s: set<T>) {
    && Distinct(order)
    && (forall x :: x in s ==> x in order)
    && (forall i :: 0 <= i < |order| ==> order[i] in s)
  }

  /** The set of the elements of xs: what inserting them one by one produces. */
  function Elements<T>(xs: seq<T>): (s: set<T>)
    ensures forall x :: x in s ==> x in xs
    ensures forall i :: 0 <= i < |xs| ==> xs[i] in s
    ensures |s| <= |xs|
  {
    if xs == [] then {} else {xs[0]} + Elements(xs[1..])
  }

  /** Without repetitions, no element collapses. */
  lemma {:induction false} DistinctElementsCount<T>(xs: seq<T>)
    requires Distinct(xs)
    ensures |Elements(xs)| == |xs|
  {
    if xs != [] {
      assert Distinct(xs[1..]) by {
        forall i, j | 0 <= i < j < |xs[1..]|
          ensures xs[1..][i] != xs[1..][j]
        {
          assert xs[1..][i] == xs[i + 1] && xs[1..][j] == xs[j + 1];
        }
      }
      DistinctElementsCount(xs[1..]);
      assert xs[0] !in Elements(xs[1..]);
    }
  }

  /** An iteration order of s is exactly as long as s is large. */
  lemma {:induction false} EnumerationLength<T>(order: seq<T>, s: set<T>)
    requires Enumerates(order, s)
    ensures Elements(order) == s && |order| == |s|
  {
    DistinctElementsCount(order);
  }

  /** to_variant for std::set and std::unordered_set (identical bodies): an array
      of variant(x) for each member x, following the container's iteration order
      `order`. The array is as long as the set is large, and its elements are
      exactly the members' conversions. */
  function SetToVariant<T>(s: set<T>, order: seq<T>, v: Variant, enc: Encoder<T>): (r: Variant)
    requires Enumerates(order, s)
    ensures IsArray(r) && |r.elems| == |order| == |s|
    ensures forall i :: 0 <= i < |order| ==> r.elems[i] == Construct(order[i], enc)
    ensures forall x :: x in s ==> Construct(x, enc) in r.elems
    ensures forall e :: e in r.elems ==> exists x :: x in s && e == Construct(x, enc)
  {
    EnumerationLength(order, s);
    EncodedMembers(s, order, enc);
    FromVariants(EncodeEach(order, enc))
  }

  /** The conversions of an iteration order of s are exactly the conversions of
      the members of s. */
  lemma EncodedMembers<T>(s: set<T>, order: seq<T>, enc: Encoder<T>)
    requires Enumerates(order, s)
    ensures forall x :: x in s ==> Construct(x, enc) in EncodeEach(order, enc)
    ensures forall e :: e in EncodeEach(order, enc) ==> exists x :: x in s && e == Construct(x, enc)
  {
    var vars := EncodeEach(order, enc);
    forall x | x in s
      ensures Construct(x, enc) in vars
    {
      var i :| 0 <= i < |order| && order[i] == x;
      assert vars[i] == Construct(x, enc);
    }
    forall e | e in vars
      ensures exists x :: x in s && e == Construct(x, enc)
    {
      var i :| 0 <= i < |vars| && vars[i] == e;
      assert order[i] in s;
    }
  }

  /** from_variant for std::set and std::unordered_set: the const get_array()
      throws, leaving vo untouched, unless v is an array; otherwise vo is cleared
      and each element's as<T>() is inserted in turn, up to the first that throws.
      Equal conversions collapse into one member. */
  function SetFromVariant<T>(v: Variant, vo: set<T>, dec: Decoder<T>, dflt: T): (r: Deserialized<set<T>>)
    ensures !IsArray(v) ==> r == Deserialized(vo, Some(TypeMismatch(GetType(v))))
    ensures IsArray(v) ==> r.thrown == DecodeEach(v.elems, dec, dflt).thrown
    ensures IsArray(v) ==>
              (forall x :: x in r.out ==> x in DecodeEach(v.elems, dec, dflt).out) &&
              (forall i :: 0 <= i < |DecodeEach(v.elems, dec, dflt).out| ==>
                 DecodeEach(v.elems, dec, dflt).out[i] in r.out)
    ensures IsArray(v) ==> |r.out| <= |v.elems|
  {
    match GetArray(v)
    case Failure(e) => Deserialized(vo, Some(e))
    case Success(vars) =>
      var d := DecodeEach(vars, dec, dflt);
      Deserialized(Elements(d.out), d.thrown)
  }

  /** Set round trip: decoding the encoding of s yields s, whatever the target
      held before, whenever each member round-trips. */
  lemma {:induction false} SetRoundTrip<T>(s: set<T>, order: seq<T>, v: Variant, vo: set<T>,
                        enc: Encoder<T>, dec: Decoder<T>, dflt: T)
    requires Enumerates(order, s)
    requires forall x :: x in s ==> RoundTrips(enc, dec, dflt, x)
    ensures SetFromVariant(SetToVariant(s, order, v, enc), vo, dec, dflt) == Deserialized(s, None)
  {
    EnumerationLength(order, s);
    var r := SetToVariant(s, order, v, enc);
    assert r.elems == EncodeEach(order, enc);
    DecodeEachInvertsEncodeEach(order, enc, dec, dflt);
  }

  /** Two array elements that convert to the same value leave one member, even
      when the elements themselves differ (say Int64(1) and UInt64(1) under a
      decoder that reads both as 1). */
  lemma SetCollapsesDuplicates<T>(e1: Variant, e2: Variant, x: T, vo: set<T>, dec: Decoder<T>, dflt: T)
    requires As(e1, dec, dflt) == Success(x) && As(e2, dec, dflt) == Success(x)
    ensures SetFromVariant(Array([e1, e2]), vo, dec, dflt) == Deserialized({x}, None)
  {
    assert [e1, e2][1..] == [e2] && [e2][1..] == [] && [e1, e2][0] == e1 && [e2][0] == e2;
    assert DecodeEach([], dec, dflt) == Deserialized([], None);
    assert [x] + [] == [x];
    assert DecodeEach([e2], dec, dflt) == Deserialized([x], None);
    assert [x] + [x] == [x, x];
    var d := DecodeEach([e1, e2], dec, dflt);
    assert d == Deserialized([x, x], None);
    assert Elements(d.out) == {x};
  }

  // ------------------------------------------------------------------- optional

  /** from_variant(const variant&, optional<T>&): null gives an absent optional;
      anything else first makes vo hold a default T and then runs from_variant
      into that T, so vo is present even when that call throws. */
  function OptionalFromVariant<T>(v: Variant, vo: Option<T>, dec: Decoder<T>, dflt: T): (r: Deserialized<Option<T>>)
    ensures IsNull(v) ==> r == Deserialized(None, None)
    ensures !IsNull(v) ==> r.out.Some?
    ensures !IsNull(v) ==> Deserialized(r.out.value, r.thrown) == dec(v, dflt)
  {
    if v.Null? then Deserialized(None, None)
    else
      var d := dec(v, dflt);
      Deserialized(Some(d.out), d.thrown)
  }

  /** The constructor variant(const optional<T>&) as written: a present optional
      builds variant(*v); an absent one assigns nothing, and since this
      constructor, unlike the generic one, does not zero-fill, the result is
      uninitialised. None stands for that indeterminate variant. */
  function VariantOfOptionalAsWritten<T>(o: Option<T>, enc: Encoder<T>): (r: Option<Variant>)
    ensures r.Some? <==> o.Some?
    ensures o.Some? ==> r.value == Construct(o.value, enc)
  {
    match o
    case Some(x) => Some(Construct(x, enc))
    case None => None
  }

  /** As written, an absent optional leaves the variant without a determinate
      value (only a variant of static storage duration, zero-initialised first,
      would read as null), so it is not guaranteed to be the null that the
      optional decoder maps back to an absent optional. */
  lemma AbsentOptionalLeavesVariantIndeterminate<T>(enc: Encoder<T>)
    ensures VariantOfOptionalAsWritten(None, enc).None?
    ensures VariantOfOptionalAsWritten(None, enc) != Some(NullVariant())
  {
  }

  /** The constructor variant(const optional<T>&) as evidently intended: the
      variant starts null, as every other constructor leaves it, and a present
      optional then builds variant(*v). */
  function VariantOfOptional<T>(o: Option<T>, enc: Encoder<T>): (r: Variant)
    ensures o.None? ==> IsNull(r)
    ensures o.Some? ==> r == Construct(o.value, enc)
    ensures VariantOfOptionalAsWritten(o, enc).Some? ==> Some(r) == VariantOfOptionalAsWritten(o, enc)
  {
    match o
    case Some(x) => Construct(x, enc)
    case None => NullVariant()
  }

  /** Optional round trip (intended constructor). An absent optional comes back
      absent. A present x whose element round-trips comes back present exactly
      when variant(x) is not null: a value that converts to null reads back as
      absent. */
  lemma OptionalRoundTrip<T>(o: Option<T>, vo: Option<T>, enc: Encoder<T>, dec: Decoder<T>, dflt: T)
    requires o.Some? ==> RoundTrips(enc, dec, dflt, o.value)
    ensures o.None? ==> OptionalFromVariant(VariantOfOptional(o, enc), vo, dec, dflt) == Deserialized(None, None)
    ensures o.Some? ==>
              (OptionalFromVariant(VariantOfOptional(o, enc), vo, dec, dflt) == Deserialized(o, None)
               <==> !IsNull(Construct(o.value, enc)))
  {
    if o.Some? {
      RoundTripsMeansDecoderRebuilds(enc, dec, dflt, o.value);
    }
  }

  // ------------------------------------------------------------ std::shared_ptr

  /** A std::shared_ptr<T>: null, or a pointer to the object identified by id,
      whose current value is pointee. */
  datatype SharedPtr<T> = NullPtr | Ptr(id: nat, pointee: T)

  /** to_variant(const std::shared_ptr<T>&, variant&): a null pointer stores null;
      otherwise the pointee is converted straight into vo. */
  function SharedPtrToVariant<T>(p: SharedPtr<T>, vo: Variant, enc: Encoder<T>): (r: Variant)
    ensures p.NullPtr? ==> IsNull(r)
    ensures p.Ptr? ==> r == enc(p.pointee, vo)
  {
    match p
    case NullPtr => NullVariant()
    case Ptr(_, x) => enc(x, vo)
  }

  function SharedPtrEncoder<T>(enc: Encoder<T>): Encoder<SharedPtr<T>> {
    (p: SharedPtr<T>, vo: Variant) => SharedPtrToVariant(p, vo, enc)
  }

  /** A pointer serialises as its pointee, not its identity: variant(p) is
      variant(*p), and pointers to equal values serialise alike. */
  lemma SharedPtrSerialisesPointee<T>(id1: nat, id2: nat, x: T, enc: Encoder<T>)
    ensures Construct(Ptr(id1, x), SharedPtrEncoder(enc)) == Construct(x, enc)
    ensures Construct(Ptr(id1, x), SharedPtrEncoder(enc)) == Construct(Ptr(id2, x), SharedPtrEncoder(enc))
    ensures IsNull(Construct(NullPtr, SharedPtrEncoder(enc)))
  {
  }

  /** from_variant(const variant&, std::shared_ptr<T>&): null resets the pointer;
      a non-null value is converted in place into the existing pointee, starting
      from its current value and keeping its identity; into an empty pointer, a
      new default T (the object newId) is allocated first and converted into.
      The pointer is non-null afterwards even when that conversion throws. */
  function SharedPtrFromVariant<T>(v: Variant, vo: SharedPtr<T>, dec: Decoder<T>, dflt: T, newId: nat): (r: Deserialized<SharedPtr<T>>)
    ensures IsNull(v) ==> r == Deserialized(NullPtr, None)
    ensures !IsNull(v) ==> r.out.Ptr?
    ensures !IsNull(v) && vo.Ptr? ==>
              r.out.id == vo.id && Deserialized(r.out.pointee, r.thrown) == dec(v, vo.pointee)
    ensures !IsNull(v) && vo.NullPtr? ==>
              r.out.id == newId && Deserialized(r.out.pointee, r.thrown) == dec(v, dflt)
  {
    if v.Null? then Deserialized(NullPtr, None)
    else
      match vo
      case Ptr(id, x) =>
        var d := dec(v, x);
        Deserialized(Ptr(id, d.out), d.thrown)
      case NullPtr =>
        var d := dec(v, dflt);
        Deserialized(Ptr(newId, d.out), d.thrown)
  }

  /** shared_ptr round trip: a null pointer comes back null; a pointer to x,
      deserialised into an empty pointer, comes back as a freshly allocated
      pointee holding x whenever x round-trips and variant(x) is not null. */
  lemma SharedPtrRoundTrip<T>(id: nat, x: T, enc: Encoder<T>, dec: Decoder<T>, dflt: T, newId: nat)
    requires RoundTrips(enc, dec, dflt, x) && !IsNull(Construct(x, enc))
    ensures SharedPtrFromVariant(Construct(NullPtr, SharedPtrEncoder(enc)), Ptr(id, x), dec, dflt, newId)
              == Deserialized(NullPtr, None)
    ensures SharedPtrFromVariant(Construct(Ptr(id, x), SharedPtrEncoder(enc)), NullPtr, dec, dflt, newId)
              == Deserialized(Ptr(newId, x), None)
  {
    RoundTripsMeansDecoderRebuilds(enc, dec, dflt, x);
  }
}
