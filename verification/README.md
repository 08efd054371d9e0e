# fc::variant and fc time arithmetic, modelled in Dafny

This project models two pieces of the `fc` headers.

**`fc::variant` and its conversion protocol** (`include/fc/variant.hpp`).
- `variant` is a tagged union of eight kinds: null, int64, uint64, double, bool, string, array of variants, and object (named variants). It has type predicates and typed accessors. Some accessors have preconditions (`@pre`) and some throw (`@throw`).
- A type `T` joins the protocol by supplying `to_variant(const T&, variant&)` and `from_variant(const variant&, T&)`.
- The generic constructor `variant(x)` and `as<T>()` connect those pairs to the value type.
- The header also supplies pairs for `std::vector`, `std::set`, `std::unordered_set`, `optional` and `std::shared_ptr`.

**`fc::microseconds` and `fc::time_point`** (`include/fc/time.hpp`). Each wraps one `int64_t` count. They provide unit helpers, addition, subtraction and comparisons.

Modules:
- `Variants` (variant.dfy): the datatype, tags, predicates, accessors and visitor.
- `Conversion` (conversion.dfy): the protocol glue.
- `Adapters` (adapters.dfy): the container and wrapper pairs.
- `Durations` and `TimePoints` (time.dfy): the time arithmetic.
- `Wrappers` and `Integers`: `Option`/`Result` and the fixed-width integer types.

How C++ constructs map to Dafny:
- A `@pre` precondition becomes a `requires`.
- A documented throw becomes a `Failure` result, or a `thrown` error.
- Both C++ conversion operations write through a reference. So `to_variant` is modelled as an `Encoder<T>`, a function from the old state of `vo` to its new state.
- `from_variant` is modelled as a `Decoder<T>`. It returns a `Deserialized<T>`: the final state of its output argument, plus the error it threw, if any.
- Modelling the output's final state keeps the in-place behaviour visible:
  - A vector whose k-th element fails to convert holds the first k converted elements.
  - An optional or shared_ptr target already holds a new default object when the inner conversion throws.
  - A shared_ptr converts into its existing pointee, starting from that pointee's current value.
- An element type takes part in a container pair through its own `enc`/`dec` and its default value `dflt`. This is what C++ overload resolution and the default-constructed `T` supply (see `Conversion.As` under "## Left out").
- Signed overflow is undefined in C++. Every time operation that adds or multiplies counts therefore requires `FitsInt64` of its exact result.

## Model

| member | source | states |
|---|---|---|
| Variants.TypeOfCode | include/fc/variant.hpp:80-90 | each enumerator value 0..7 names the tag whose code it is |
| Variants.TypeCodeIsBijective | include/fc/variant.hpp:80-90 | tags and enumerator values null_type = 0 … object_type = 7 correspond one to one |
| Variants.TypeCode | include/fc/variant.hpp:80-90 | every tag's enumerator value lies in 0..7 |
| Variants.TypePredicatesMatchTag | include/fc/variant.hpp:136-149 | the predicates Variants.IsNull, IsString, IsBool, IsInt64, IsUInt64, IsDouble, IsObject, IsArray (each is_*) hold iff Variants.GetType (get_type()) is their tag; exactly one of the eight holds; Variants.IsNumeric (is_numeric) holds exactly for int64, uint64, double and bool |
| Variants.NullVariant | include/fc/variant.hpp:92-95 | variant() and variant(nullptr) hold the null tag, whose code is 0 |
| Variants.FromVariants | include/fc/variant.hpp:111 | variant(variants) holds the array tag with exactly those elements |
| Variants.AsString | include/fc/variant.hpp:156-159 | as_string throws (type mismatch) exactly when the tag is array or object; otherwise it returns the scalar's rendering |
| Variants.GetString | include/fc/variant.hpp:161-162 | get_string requires the string tag and returns the payload the variant was built from |
| Variants.GetArray | include/fc/variant.hpp:167-168 | const get_array succeeds exactly on the array tag, returning its elements; otherwise throws a type mismatch naming the tag |
| Variants.GetArrayMut | include/fc/variant.hpp:164-165 | mutable get_array succeeds exactly on array or null; an array is returned unchanged, null becomes an empty array; other tags throw |
| Variants.GetObject | include/fc/variant.hpp:173-174 | const get_object succeeds exactly on the object tag; otherwise throws a type mismatch |
| Variants.GetObjectMut | include/fc/variant.hpp:170-171 | mutable get_object succeeds exactly on object or null; null becomes an empty object; other tags throw |
| Variants.MutableAccessorsExtendConst | include/fc/variant.hpp:164-174 | the mutable overloads accept what the const ones accept plus null, and agree with them on the payload |
| Variants.Member | include/fc/variant.hpp:176-177 | operator[](key) requires an object; an absent key reads as null, a present key reads the value of an entry with that name |
| Variants.Size | include/fc/variant.hpp:180-181 | size() requires an array and equals the number of elements get_array() returns |
| Variants.At | include/fc/variant.hpp:178-179 | operator[](pos) requires an array and an index in range, and is the pos-th element get_array() returns |
| Variants.VisitDispatchesOnActiveTag | include/fc/variant.hpp:119-134 | Variants.Visit (visit()) calls the handler of the active tag and no other, and hands it the whole payload |
| Conversion.ZeroFilled | include/fc/variant.hpp:321 | a zero-filled variant has tag code 0 |
| Conversion.ZeroTagIsNull | include/fc/variant.hpp:80-90 | a variant whose tag code is 0 is the null variant, so zero-filling yields null |
| Conversion.Construct | include/fc/variant.hpp:318-323 | variant(x) is to_variant(x, ·) applied to a null (zero-filled) variant |
| Conversion.As | include/fc/variant.hpp:195-201 | as<T>() returns what from_variant leaves in a default T, and fails with exactly the error from_variant throws |
| Conversion.RoundTripsMeansDecoderRebuilds | include/fc/variant.hpp:195-201 | x survives variant(x).as<T>() iff from_variant on a default T rebuilds x without throwing |
| Adapters.EncodeEach | include/fc/variant.hpp:311-313 | one converted element per input element, the i-th being variant(t[i]) |
| Adapters.DecodeEach | include/fc/variant.hpp:303-304 | as<T>() of each element in order; on success one value per element; on a throw, the values before the first failing element and that element's error |
| Adapters.DecodeEachInvertsEncodeEach | include/fc/variant.hpp:297-315 | decoding the encoded elements yields the original sequence with no error, when each element round-trips |
| Adapters.VectorToVariant | include/fc/variant.hpp:308-315 | a vector becomes an array of the same length whose i-th element is variant(t[i]), whatever vo held |
| Adapters.VectorFromVariant | include/fc/variant.hpp:297-305 | a non-array throws a type mismatch and leaves the vector untouched; an array yields the in-order conversions, up to the first failing element |
| Adapters.VectorFromVariantDiscardsPrior | include/fc/variant.hpp:300-302 | once the input is an array, the vector's prior contents do not affect the result |
| Adapters.VectorRoundTrip | include/fc/variant.hpp:297-315 | decode∘encode is the identity on vectors whose elements round-trip |
| Adapters.VectorPairRoundTrips | include/fc/variant.hpp:297-315 | the vector pair itself round-trips through variant(x).as<T>(), so vectors of vectors do too |
| Adapters.Elements | include/fc/variant.hpp:290-293 | inserting elements one by one gives exactly those elements as members, never more members than elements |
| Adapters.DistinctElementsCount | include/fc/variant.hpp:262-265 | a sequence without repetitions has as many members as elements |
| Adapters.EnumerationLength | include/fc/variant.hpp:262-265 | an iteration order of a set lists exactly its members and is as long as the set's size() |
| Adapters.EncodedMembers | include/fc/variant.hpp:262-265 | converting a set's members in iteration order yields exactly the conversions of its members |
| Adapters.SetToVariant | include/fc/variant.hpp:259-267 | a set becomes an array whose length is the set's size, in iteration order, whose elements are exactly the members' conversions |
| Adapters.SetFromVariant | include/fc/variant.hpp:268-276 | a non-array throws and leaves the set untouched; an array yields the set of converted elements, no larger than the array, with the first element error |
| Adapters.SetRoundTrip | include/fc/variant.hpp:259-276 | decode∘encode is the identity on sets whose members round-trip |
| Adapters.SetCollapsesDuplicates | include/fc/variant.hpp:286-294 | two array elements, possibly different variants, that convert to the same value give one member |
| Adapters.OptionalFromVariant | include/fc/variant.hpp:249-258 | null gives an absent optional; anything else gives a present optional holding from_variant applied to a default T, with its error |
| Adapters.VariantOfOptionalAsWritten | include/fc/variant.hpp:213-217 | as written, a present optional constructs as its value and an absent one leaves the variant indeterminate |
| Adapters.AbsentOptionalLeavesVariantIndeterminate | include/fc/variant.hpp:213-217 | as written, an absent optional does not produce the null variant |
| Adapters.VariantOfOptional | include/fc/variant.hpp:213-217 | intended constructor: absent gives null, present gives exactly variant(*v) |
| Adapters.OptionalRoundTrip | include/fc/variant.hpp:249-258 | absent round-trips to absent; a present round-tripping value comes back present iff it does not convert to null |
| Adapters.SharedPtrToVariant | include/fc/variant.hpp:327-332 | a null pointer writes null; a non-null pointer writes to_variant of its pointee into vo |
| Adapters.SharedPtrSerialisesPointee | include/fc/variant.hpp:327-332 | variant(p) equals variant(*p), whatever the pointer's identity |
| Adapters.SharedPtrFromVariant | include/fc/variant.hpp:334-343 | null resets the pointer; otherwise an existing pointee keeps its identity and is converted in place from its current value, and an empty pointer gets a new default object converted in place |
| Adapters.SharedPtrRoundTrip | include/fc/variant.hpp:327-343 | null comes back null; a pointer to a round-tripping, non-null-converting x comes back as a new pointee holding x |
| Durations.Zero | include/fc/time.hpp:9 | microseconds() has count 0 |
| Durations.Count | include/fc/time.hpp:19 | count() is the wrapped count, which determines the duration |
| Durations.Maximum | include/fc/time.hpp:10 | maximum() has count 0x7fffffffffffffff and is ≥ every duration |
| Durations.Plus | include/fc/time.hpp:11 | + adds counts, given no overflow |
| Durations.PlusAssign | include/fc/time.hpp:18 | a += b leaves a equal to the old a + b |
| Durations.ComparisonsFollowCount | include/fc/time.hpp:13-17 | the predicates Durations.Eq, Lt, Le, Gt, Ge (the operators ==, <, <=, >, >=) compare count(); the added fact is that == is value equality |
| Durations.ComparisonsFormTotalOrder | include/fc/time.hpp:13-17 | <= is a total order, < its strict part, > and >= the converses, and exactly one of <, ==, > holds |
| Durations.Seconds | include/fc/time.hpp:24 | seconds(s) has count s·1000000, given no overflow |
| Durations.Milliseconds | include/fc/time.hpp:25 | milliseconds(s) has count s·1000, given no overflow |
| Durations.UnitHelpersRange | include/fc/time.hpp:24-25 | seconds(s) is free of overflow exactly for abs(s) ≤ 9223372036854, milliseconds(s) exactly for abs(s) ≤ 9223372036854775 |
| Durations.SecondsAreThousandMilliseconds | include/fc/time.hpp:24-25 | seconds(s) equals milliseconds(1000·s) |
| TimePoints.Epoch | include/fc/time.hpp:29 | time_point() is 0 µs since the epoch |
| TimePoints.TimeSinceEpoch | include/fc/time.hpp:37 | time_since_epoch() is the wrapped duration, which determines the time point |
| TimePoints.Maximum | include/fc/time.hpp:31 | maximum() has count 0x7fffffffffffffff and is ≥ every time point |
| TimePoints.Min | include/fc/time.hpp:32 | min() is the default time point, the epoch |
| TimePoints.MinIsEpochNotLeast | include/fc/time.hpp:29-32 | min() is at the epoch, and a time point compares below it exactly when its count is negative (so −1 µs does) |
| TimePoints.ComparisonsFollowTimeSinceEpoch | include/fc/time.hpp:37-43 | the predicates TimePoints.Gt, Ge, Lt, Le, Eq, Ne (>, >=, <, <=, ==, !=) agree with the same comparison of time_since_epoch(), != negates ==, and == is value equality |
| TimePoints.Plus | include/fc/time.hpp:45 | t + m is count(t) + count(m) µs after the epoch, given no overflow |
| TimePoints.PlusAssign | include/fc/time.hpp:44 | t += m leaves t equal to the old t + m |
| TimePoints.Minus | include/fc/time.hpp:46 | t - u has count count(t) − count(u), given no overflow |
| TimePoints.MinusInvertsPlus | include/fc/time.hpp:45-46 | (t + m) − t == m and t + (u − t) == u, absent overflow |
| TimePoints.PlusIsMonotone | include/fc/time.hpp:45 | t + m ≥ t exactly when m ≥ 0 |

## Left out

- Variants.AsString: the text each scalar renders to is the parameter `render`, because the body of `as_string` is not part of this model.
- Variants.Member: its body reads the first entry with the given name, but only its contract (an absent key reads as null, a present key reads some entry with that name) is claimed to match the source; `variant_object`'s lookup rules are not part of this model. Reading an absent key as null is an assumption of this model: the header states only the precondition `is_object()`.
- Variants.GetArrayMut: turning null into an empty array (and `GetObjectMut` into an empty object) is an assumption of this model. The header states only which tags they accept (the `@throw` clauses for tags other than array or object and null).
- `as_int64`, `as_uint64`, `as_bool`, `as_double`: the header gives no contract and their bodies are not part of this model. No cross-tag numeric rules are modelled.
- The scalar and container constructors (`int`, `float`, `int64_t`, `uint64_t`, `double`, `bool`, `fc::string`, `char*`, `wchar_t*`, `variant_object`, `mutable_variant_object`): their bodies are not part of this model. The datatype's constructors stand for the states they produce. `variant(variants)` is taken to produce the array tag, as the vector and set pairs rely on.
- Copy and move constructors, the assignment operators, the destructor, and the 16-byte layout: Dafny values already have value semantics.
- The templated `operator=(T&&)`: it assigns `variant(x)`. With value semantics that is `Conversion.Construct`.
- Visitor handlers return a value instead of acting through side effects.
- double and float payloads are kept as an opaque 64-bit pattern and never interpreted.
- Declared-only conversion hooks (lines 30-43, 53-58 and 229-247 of `include/fc/variant.hpp`) and the `__APPLE__` `size_t` hook: each delegates to code that is not part of this model.
- `variant_object`, `mutable_variant_object`, `fc::string` and `fc::optional` are not part of this model. An object payload is an opaque sequence of pairs. Key uniqueness and last-write-wins are not asserted.
- Serialisers are taken not to throw.
- Variants.GetArray: the header says only that the accessors throw on a wrong tag; the `found` tag carried by `TypeMismatch` (also in `GetObject`, `GetArrayMut`, `GetObjectMut`, `AsString` and the container decoders) is this model's choice, not a documented exception payload.
- Conversion.As: `as<T>()` starts from `T tmp;`, which is default-initialisation and leaves a scalar or aggregate `T` indeterminate, whereas the optional pair (`T()`) and the shared_ptr pair (`make_shared<T>()`) start from a value-initialised `T`. The model feeds the same `dflt` to all three, so it does not distinguish an indeterminate starting value from a value-initialised one.
- Adapters.SetToVariant: the iteration order is the parameter `order`. The ascending order of `std::set` is not asserted, and neither is any order for `std::unordered_set`.
- Adapters.SetFromVariant also stands for `from_variant` into `std::set` (lines 286-294 of `include/fc/variant.hpp`). That body calls `reserve`, which `std::set` lacks, so it would not compile if instantiated. It is modelled with the intended clear-then-insert behaviour.
- Adapters.SetFromVariant: members collapse under Dafny value equality. `std::set` collapses under its comparator's equivalence and keeps the first element inserted, and `std::unordered_set` under its hash and `==`; a comparator or equality coarser than value equality is not modelled.
- Adapters.SharedPtrFromVariant: there is no heap. Other owners of the same object would see the in-place change; the model keeps only the object's identity `id`. The identity `newId` of a newly allocated object is a parameter.
- `time_point::now()`, `operator fc::string` and `from_iso_string`: they read the clock or do ISO 8601 text I/O, and their bodies are not part of this model.
- `microseconds` declares no `!=`, so none is modelled for it.

## Findings

| source | as written | input that shows it | evidently intended | confidence | as-written member | corrected member |
|---|---|---|---|---|---|---|
| include/fc/variant.hpp:213-217 | `variant(const optional<T>&)` assigns only when the optional is present. It does not zero-fill as the generic constructor does (line 321), so an absent optional leaves the variant's tag and payload uninitialised. | `variant(optional<int64_t>())` | an absent optional yields the null variant, which the optional decoder (lines 249-258) maps back to an absent optional | high (not executed) | Adapters.VariantOfOptionalAsWritten, shown by Adapters.AbsentOptionalLeavesVariantIndeterminate | Adapters.VariantOfOptional, with Adapters.OptionalRoundTrip |
