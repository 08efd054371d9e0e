/** The conversion protocol: every participating type T supplies a pair
      to_variant(const T&, variant&)     -- an Encoder<T>
      from_variant(const variant&, T&)   -- a Decoder<T>
    and the variant class connects them to its generic constructor and to as<T>().

    Both C++ operations write through a reference, so both are modelled as
    functions from the old state of their output argument to the new one. A
    from_variant that throws may already have changed its output; Deserialized
    records that final state together with the error. */
module Conversion {
  import opened Wrappers
  import opened Variants

  /** to_variant(x, vo): the value vo holds afterwards. */
  type Encoder<!T> = (T, Variant) -> Variant

  /** What from_variant(var, vo) leaves behind: the final state of vo, and the
      error it threw, if any. */
  datatype Deserialized<T> = Deserialized(out: T, thrown: Option<Error>)

  /** from_variant(var, vo), given var and the state of vo before the call. */
  type Decoder<!T> = (Variant, T) -> Deserialized<T>

  /** The variant a zero-filled object reads as: every tag byte is 0, and 0 is
      the enumerator of null_type, which carries no payload. */
  function ZeroFilled(): (v: Variant)
    ensures TypeCode(GetType(v)) == 0
  {
    Null
  }

  /** Zero bytes cannot be read as anything but null. */
  lemma ZeroTagIsNull(v: Variant)
    requires TypeCode(GetType(v)) == 0
    ensures v == ZeroFilled() && IsNull(v)
  {
  }

  /** The generic constructor variant(x): zero-fill, then to_variant(x, *this). */
  function Construct<T>(x: T, enc: Encoder<T>): (v: Variant)
    ensures v == enc(x, NullVariant())
  {
    enc(x, ZeroFilled())
  }

  /** as<T>(): run from_variant on a default-constructed T and return it; an
      error thrown by from_variant propagates unchanged. */
  function As<T>(v: Variant, dec: Decoder<T>, dflt: T): (r: Result<T, Error>)
    ensures r.Success? <==> dec(v, dflt).thrown.None?
    ensures r.Success? ==> r.value == dec(v, dflt).out
    ensures r.Failure? ==> dec(v, dflt).thrown == Some(r.error)
  {
    var d := dec(v, dflt);
    match d.thrown
    case None => Success(d.out)
    case Some(e) => Failure(e)
  }

  /** x survives variant(x).as<T>() unchanged. */
  ghost predicate RoundTrips<T>(enc: Encoder<T>, dec: Decoder<T>, dflt: T, x: T) {
    As(Construct(x, enc), dec, dflt) == Success(x)
  }

  /** RoundTrips means from_variant, started from a default T, rebuilds x from
      variant(x) without throwing. */
  lemma RoundTripsMeansDecoderRebuilds<T>(enc: Encoder<T>, dec: Decoder<T>, dflt: T, x: T)
    ensures RoundTrips(enc, dec, dflt, x) <==>
              dec(Construct(x, enc), dflt) == Deserialized(x, None)
  {
  }
}
