/** The fc::variant value model: a tagged union of eight payload kinds, its type
    predicates, its typed accessors with their failure contracts, and the visitor.

    Preconditions of the C++ interface ("@pre") become `requires`; the
    documented throws ("@throw") become a `Failure` result. */
module Variants {
  import opened Integers
  import opened Wrappers

  /** variant::type_id, in declaration order. */
  datatype TypeId =
    | NullType
    | Int64Type
    | UInt64Type
    | DoubleType
    | BoolType
    | StringType
    | ArrayType
    | ObjectType

  /** The enumerator value of each tag: null_type = 0 ... object_type = 7. */
  function TypeCode(t: TypeId): (n: nat)
    ensures n < 8
  {
    match t
    case NullType => 0
    case Int64Type => 1
    case UInt64Type => 2
    case DoubleType => 3
    case BoolType => 4
    case StringType => 5
    case ArrayType => 6
    case ObjectType => 7
  }

  /** The tag whose enumerator value is n. */
  function TypeOfCode(n: nat): (t: TypeId)
    requires n < 8
    ensures TypeCode(t) == n
  {
    if n == 0 then NullType
    else if n == 1 then Int64Type
    else if n == 2 then UInt64Type
    else if n == 3 then DoubleType
    else if n == 4 then BoolType
    else if n == 5 then StringType
    else if n == 6 then ArrayType
    else ObjectType
  }

  /** The enumerator values name the tags one-to-one. */
  lemma TypeCodeIsBijective(t: TypeId, n: nat)
    requires n < 8
    ensures TypeOfCode(TypeCode(t)) == t
    ensures TypeCode(t) == n <==> t == TypeOfCode(n)
  {
  }

  /** A value. The double payload is kept as its 64-bit pattern and never
      interpreted; an object is an ordered sequence of (name, value) pairs whose
      lookup rules belong to variant_object, which is not part of this model. */
  datatype Variant =
    | Null
    | Int64(i: int64)
    | UInt64(u: uint64)
    | Double(bits: uint64)
    | Bool(b: bool)
    | String(str: string)
    | Array(elems: seq<Variant>)
    | Object(fields: seq<(string, Variant)>)

  /** What a conversion or accessor can throw: a tag the operation does not
      accept (found records the tag, which is this model's choice of payload),
      or an error raised by an application's own from_variant. */
  datatype Error = TypeMismatch(found: TypeId) | Raised(what: string)

  /** get_type(): the active tag. */
  function GetType(v: Variant): TypeId {
    match v
    case Null => NullType
    case Int64(_) => Int64Type
    case UInt64(_) => UInt64Type
    case Double(_) => DoubleType
    case Bool(_) => BoolType
    case String(_) => StringType
    case Array(_) => ArrayType
    case Object(_) => ObjectType
  }

  predicate IsNull(v: Variant) { v.Null? }
  predicate IsString(v: Variant) { v.String? }
  predicate IsBool(v: Variant) { v.Bool? }
  predicate IsInt64(v: Variant) { v.Int64? }
  predicate IsUInt64(v: Variant) { v.UInt64? }
  predicate IsDouble(v: Variant) { v.Double? }
  predicate IsObject(v: Variant) { v.Object? }
  predicate IsArray(v: Variant) { v.Array? }

  /** is_numeric(): int64, uint64, double, bool. */
  predicate IsNumeric(v: Variant) {
    v.Int64? || v.UInt64? || v.Double? || v.Bool?
  }

  /** The number of true entries of bs. */
  function CountTrue(bs: seq<bool>): nat {
    if bs == [] then 0 else (if bs[0] then 1 else 0) + CountTrue(bs[1..])
  }

  /** A sequence with exactly one true entry counts one. */
  lemma {:induction false} CountTrueSingle(bs: seq<bool>, k: nat)
    requires k < |bs| && bs[k]
    requires forall i :: 0 <= i < |bs| && i != k ==> !bs[i]
    ensures CountTrue(bs) == 1
  {
    if k == 0 {
      CountTrueNone(bs[1..]);
    } else {
      CountTrueSingle(bs[1..], k - 1);
    }
  }

  /** A sequence with no true entry counts zero. */
  lemma {:induction false} CountTrueNone(bs: seq<bool>)
    requires forall i :: 0 <= i < |bs| ==> !bs[i]
    ensures CountTrue(bs) == 0
  {
    if bs != [] {
      CountTrueNone(bs[1..]);
    }
  }

  /** Each is_* predicate holds exactly when get_type() is its tag, exactly one of
      the eight holds, and is_numeric is the union of the four scalar numeric tags. */
  lemma TypePredicatesMatchTag(v: Variant)
    ensures IsNull(v) <==> GetType(v) == NullType
    ensures IsInt64(v) <==> GetType(v) == Int64Type
    ensures IsUInt64(v) <==> GetType(v) == UInt64Type
    ensures IsDouble(v) <==> GetType(v) == DoubleType
    ensures IsBool(v) <==> GetType(v) == BoolType
    ensures IsString(v) <==> GetType(v) == StringType
    ensures IsArray(v) <==> GetType(v) == ArrayType
    ensures IsObject(v) <==> GetType(v) == ObjectType
    ensures CountTrue([IsNull(v), IsInt64(v), IsUInt64(v), IsDouble(v),
                       IsBool(v), IsString(v), IsArray(v), IsObject(v)]) == 1
    ensures IsNumeric(v) <==> GetType(v) in {Int64Type, UInt64Type, DoubleType, BoolType}
    ensures IsNumeric(v) <==> 1 <= TypeCode(GetType(v)) <= 4
  {
    var bs := [IsNull(v), IsInt64(v), IsUInt64(v), IsDouble(v),
               IsBool(v), IsString(v), IsArray(v), IsObject(v)];
    // bs lists the predicates in enumeration order, so the one true entry
    // sits at the active tag's enumerator value
    CountTrueSingle(bs, TypeCode(GetType(v)));
  }

  /** variant() and variant(nullptr): a null variant. */
  function NullVariant(): (v: Variant)
    ensures IsNull(v) && TypeCode(GetType(v)) == 0
  {
    Null
  }

  /** variant(variants): an array variant holding the given elements. */
  function FromVariants(vars: seq<Variant>): (v: Variant)
    ensures IsArray(v) && v.elems == vars
  {
    Array(vars)
  }

  /** as_string(): renders any scalar as text and throws for arrays and objects.
      How each scalar is rendered is not part of this model; `render` stands for it. */
  function AsString(v: Variant, render: Variant -> string): (r: Result<string, Error>)
    ensures r.Failure? <==> GetType(v) == ArrayType || GetType(v) == ObjectType
    ensures r.Failure? ==> r.error == TypeMismatch(GetType(v))
    ensures r.Success? ==> r.value == render(v)
  {
    if v.Array? || v.Object? then Failure(TypeMismatch(GetType(v))) else Success(render(v))
  }

  /** get_string(): precondition is_string. */
  function GetString(v: Variant): (s: string)
    requires IsString(v)
    ensures String(s) == v
  {
    v.str
  }

  /** const get_array(): throws unless the tag is array. */
  function GetArray(v: Variant): (r: Result<seq<Variant>, Error>)
    ensures r.Success? <==> IsArray(v)
    ensures r.Success? ==> FromVariants(r.value) == v
    ensures r.Failure? ==> r.error == TypeMismatch(GetType(v))
  {
    if v.Array? then Success(v.elems) else Failure(TypeMismatch(GetType(v)))
  }

  /** Mutable get_array(): also accepts null, which it turns into an empty array so
      that the returned reference has a sequence to designate. The result is the
      variant after the call; its elements are what the reference designates. */
  function GetArrayMut(v: Variant): (r: Result<Variant, Error>)
    ensures r.Success? <==> IsArray(v) || IsNull(v)
    ensures r.Success? ==> IsArray(r.value)
    ensures IsArray(v) ==> r == Success(v)
    ensures IsNull(v) ==> r == Success(FromVariants([]))
    ensures r.Failure? ==> r.error == TypeMismatch(GetType(v))
  {
    match v
    case Null => Success(Array([]))
    case Array(_) => Success(v)
    case _ => Failure(TypeMismatch(GetType(v)))
  }

  /** const get_object(): throws unless the tag is object. */
  function GetObject(v: Variant): (r: Result<seq<(string, Variant)>, Error>)
    ensures r.Success? <==> IsObject(v)
    ensures r.Success? ==> Object(r.value) == v
    ensures r.Failure? ==> r.error == TypeMismatch(GetType(v))
  {
    if v.Object? then Success(v.fields) else Failure(TypeMismatch(GetType(v)))
  }

  /** Mutable get_object(): also accepts null, which it turns into an empty object. */
  function GetObjectMut(v: Variant): (r: Result<Variant, Error>)
    ensures r.Success? <==> IsObject(v) || IsNull(v)
    ensures r.Success? ==> IsObject(r.value)
    ensures IsObject(v) ==> r == Success(v)
    ensures IsNull(v) ==> r == Success(Object([]))
    ensures r.Failure? ==> r.error == TypeMismatch(GetType(v))
  {
    match v
    case Null => Success(Object([]))
    case Object(_) => Success(v)
    case _ => Failure(TypeMismatch(GetType(v)))
  }

  /** The mutable overloads accept exactly what the const ones accept, plus null,
      and agree with them on the payload where both succeed. */
  lemma MutableAccessorsExtendConst(v: Variant)
    ensures GetArrayMut(v).Success? <==> GetArray(v).Success? || IsNull(v)
    ensures GetArray(v).Success? ==> GetArrayMut(v) == Success(FromVariants(GetArray(v).value))
    ensures GetObjectMut(v).Success? <==> GetObject(v).Success? || IsNull(v)
    ensures GetObject(v).Success? ==> GetObjectMut(v) == Success(Object(GetObject(v).value))
  {
  }

  /** The value of the first field named key, or null when no field has that name. */
  function FindField(fields: seq<(string, Variant)>, key: string): (r: Variant)
    ensures (forall i :: 0 <= i < |fields| ==> fields[i].0 != key) ==> r == Null
    ensures (exists i :: 0 <= i < |fields| && fields[i].0 == key) ==>
              exists i :: 0 <= i < |fields| && fields[i] == (key, r)
  {
    if fields == [] then Null
    else if fields[0].0 == key then fields[0].1
    else
      var r := FindField(fields[1..], key);
      assert forall i :: 1 <= i < |fields| ==> fields[i] == fields[1..][i - 1];
      r
  }

  /** operator[](key): precondition is_object. An absent key reads as null; when a
      name repeats, the first entry with it is read. */
  function Member(v: Variant, key: string): (r: Variant)
    requires IsObject(v)
    ensures (forall i :: 0 <= i < |v.fields| ==> v.fields[i].0 != key) ==> IsNull(r)
    ensures (exists i :: 0 <= i < |v.fields| && v.fields[i].0 == key) ==>
              exists i :: 0 <= i < |v.fields| && v.fields[i] == (key, r)
  {
    FindField(v.fields, key)
  }

  /** size(): precondition is_array; the number of elements get_array() returns. */
  function Size(v: Variant): (n: nat)
    requires IsArray(v)
    ensures GetArray(v).Success? && n == |GetArray(v).value|
  {
    |v.elems|
  }

  /** operator[](pos): precondition is_array, and pos in range; the pos-th element
      get_array() returns. */
  function At(v: Variant, pos: nat): (r: Variant)
    requires IsArray(v) && pos < Size(v)
    ensures GetArray(v).Success? && r == GetArray(v).value[pos]
  {
    v.elems[pos]
  }

  /** visitor: one handler per tag, each given the payload of that tag. */
  datatype Visitor<R> = Visitor(
    handleNull: () -> R,
    handleInt64: int64 -> R,
    handleUInt64: uint64 -> R,
    handleDouble: uint64 -> R,
    handleBool: bool -> R,
    handleString: string -> R,
    handleObject: seq<(string, Variant)> -> R,
    handleArray: seq<Variant> -> R)

  /** visit(): calls the handler of the active tag on the payload. */
  function Visit<R>(v: Variant, vis: Visitor<R>): R {
    match v
    case Null => vis.handleNull()
    case Int64(i) => vis.handleInt64(i)
    case UInt64(u) => vis.handleUInt64(u)
    case Double(d) => vis.handleDouble(d)
    case Bool(b) => vis.handleBool(b)
    case String(s) => vis.handleString(s)
    case Object(o) => vis.handleObject(o)
    case Array(a) => vis.handleArray(a)
  }

  /** A visitor each of whose handlers reports the tag it is named for. */
  function TagReporter(): Visitor<TypeId> {
    Visitor(
      () => NullType, _ => Int64Type, _ => UInt64Type, _ => DoubleType,
      _ => BoolType, _ => StringType, _ => ObjectType, _ => ArrayType)
  }

  /** A visitor each of whose handlers rebuilds a variant of its tag from the payload. */
  function Rebuilder(): Visitor<Variant> {
    Visitor(
      () => Null, i => Int64(i), u => UInt64(u), d => Double(d),
      b => Bool(b), s => String(s), o => Object(o), a => Array(a))
  }

  /** visit() dispatches to the handler of the active tag and no other, and hands
      that handler the whole payload. */
  lemma VisitDispatchesOnActiveTag(v: Variant)
    ensures Visit(v, TagReporter()) == GetType(v)
    ensures Visit(v, Rebuilder()) == v
  {
  }
}
