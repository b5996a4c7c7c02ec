/** The tagged value system: a value is a type tag together with either a
    possibly-null payload (a scalar), a list of element values (a sequence), or
    the null sequence. Null is a representable state of every type, and the null
    sequence is distinct from the empty sequence. */
module Values {
  import opened Wrappers
  import opened Calendar

  /** The value types the modelled code names. */
  datatype ValueType =
    | TextType
    | IntegerType
    | DecimalType
    | BooleanType
    | DateType
    | DateTimeType
    | BinaryType
    | LocaleType

  /** The registered name of each type. */
  function TypeName(t: ValueType): string {
    match t
    case TextType => "text"
    case IntegerType => "integer"
    case DecimalType => "decimal"
    case BooleanType => "boolean"
    case DateType => "date"
    case DateTimeType => "datetime"
    case BinaryType => "binary"
    case LocaleType => "locale"
  }

  /** Lookup of a type by its registered name; None for a name no type has. */
  function ForName(name: string): (r: Option<ValueType>)
    ensures r.Some? ==> TypeName(r.value) == name
    ensures r.None? ==> forall t: ValueType :: TypeName(t) != name
  {
    if name == "text" then Some(TextType)
    else if name == "integer" then Some(IntegerType)
    else if name == "decimal" then Some(DecimalType)
    else if name == "boolean" then Some(BooleanType)
    else if name == "date" then Some(DateType)
    else if name == "datetime" then Some(DateTimeType)
    else if name == "binary" then Some(BinaryType)
    else if name == "locale" then Some(LocaleType)
    else None
  }

  /** Every type is found again under its own name. */
  lemma ForNameOfTypeName(t: ValueType)
    ensures ForName(TypeName(t)) == Some(t)
  {
  }

  /** The native representation carried by a non-null scalar. */
  datatype Payload =
    | TextP(text: string)
    | IntegerP(number: int)
    | DecimalP(decimal: real)
    | BooleanP(flag: bool)
    | DateP(date: Date)
    | DateTimeP(instant: Instant)
    | BinaryP(bytes: seq<bv8>)
    | LocaleP(tag: string)

  datatype Value =
    | Scalar(vt: ValueType, payload: Option<Payload>)
    | Sequence(vt: ValueType, elements: seq<Value>)
    | NullSeq(vt: ValueType)

  /** The exceptions the modelled code raises, one constructor per kind. */
  datatype Error =
    | ValueConversion(message: string)
    | NotConvertible(source: ValueType, target: ValueType)
    | IllegalArgument(message: string)
    | Evaluation(message: string)
    | NullReference
    | IndexOutOfBounds(index: int)
    | UnknownValueType(name: string)
    | UnsupportedOperation
    | NoSuchElement
    | ClassCast

  predicate IsNull(v: Value) {
    match v
    case Scalar(_, p) => p.None?
    case Sequence(_, _) => false
    case NullSeq(_) => true
  }

  predicate IsSequence(v: Value) {
    v.Sequence? || v.NullSeq?
  }

  function NullValue(t: ValueType): (r: Value)
    ensures r.vt == t && IsNull(r) && !IsSequence(r)
  {
    Scalar(t, None)
  }

  function NullSequence(t: ValueType): (r: Value)
    ensures r.vt == t && IsNull(r) && IsSequence(r)
  {
    NullSeq(t)
  }

  function SequenceOf(t: ValueType, xs: seq<Value>): (r: Value)
    ensures r.vt == t && !IsNull(r) && IsSequence(r)
    ensures r.elements == xs
  {
    Sequence(t, xs)
  }

  function TextValue(s: string): (r: Value)
    ensures r.vt == TextType && !IsNull(r) && !IsSequence(r)
    ensures r.payload == Some(TextP(s))
  {
    Scalar(TextType, Some(TextP(s)))
  }

  function IntegerValue(n: int): (r: Value)
    ensures r.vt == IntegerType && !IsNull(r) && !IsSequence(r)
    ensures r.payload == Some(IntegerP(n))
  {
    Scalar(IntegerType, Some(IntegerP(n)))
  }

  /** How one non-null payload is converted to a target type; None when the
      payload is not representable in that type. */
  type ScalarConverter = (ValueType, Payload) -> Option<Payload>

  /** Conversion of a value to `target`: a null converts to the target's null of
      the same shape, a scalar payload through `conv`, and a sequence element by
      element, failing on the first element that fails. */
  function Convert(target: ValueType, v: Value, conv: ScalarConverter): (r: Result<Value, Error>)
    ensures r.Ok? ==> r.value.vt == target
    ensures r.Ok? ==> (IsSequence(r.value) <==> IsSequence(v))
    ensures r.Ok? ==> (IsNull(r.value) <==> IsNull(v))
    ensures IsNull(v) ==> r.Ok?
    ensures r.Ok? && v.Sequence? ==> r.value.Sequence? && |r.value.elements| == |v.elements|
    ensures r.Ok? && v.Scalar? && v.payload.Some? ==> r.value.payload == conv(target, v.payload.value)
    decreases v
  {
    match v
    case Scalar(t, None) => Ok(Scalar(target, None))
    case Scalar(t, Some(p)) =>
      (match conv(target, p)
       case Some(q) => Ok(Scalar(target, Some(q)))
       case None => Err(NotConvertible(t, target)))
    case NullSeq(t) => Ok(NullSeq(target))
    case Sequence(t, xs) =>
      (match ConvertElements(target, xs, conv, v)
       case Ok(ys) => Ok(Sequence(target, ys))
       case Err(e) => Err(e))
  }

  /** Element-wise conversion of the elements `xs` of sequence `whole`. */
  function ConvertElements(target: ValueType, xs: seq<Value>, conv: ScalarConverter, ghost whole: Value): (r: Result<seq<Value>, Error>)
    requires forall x | x in xs :: x < whole
    ensures r.Ok? ==> |r.value| == |xs|
    decreases whole, |xs|
  {
    if |xs| == 0 then Ok([])
    else
      assert xs[0] in xs;
      match Convert(target, xs[0], conv)
      case Err(e) => Err(e)
      case Ok(y) =>
        assert forall x | x in xs[1..] :: x in xs;
        match ConvertElements(target, xs[1..], conv, whole)
        case Err(e) => Err(e)
        case Ok(ys) => Ok([y] + ys)
  }

  lemma {:induction false} ConvertElementsPointwise(target: ValueType, xs: seq<Value>, conv: ScalarConverter, whole: Value)
    requires forall x | x in xs :: x < whole
    requires ConvertElements(target, xs, conv, whole).Ok?
    ensures forall i :: 0 <= i < |xs| ==>
      Convert(target, xs[i], conv) == Ok(ConvertElements(target, xs, conv, whole).value[i])
    decreases |xs|
  {
    if |xs| > 0 {
      assert forall x | x in xs[1..] :: x in xs;
      ConvertElementsPointwise(target, xs[1..], conv, whole);
    }
  }

  /** A sequence converts element by element: each element of a successful
      conversion is the conversion of the element at the same position, and if
      any element cannot be converted neither can the sequence. */
  lemma ConvertSequencePointwise(target: ValueType, v: Value, conv: ScalarConverter)
    requires v.Sequence?
    ensures Convert(target, v, conv).Ok? ==>
      forall i :: 0 <= i < |v.elements| ==>
        Convert(target, v.elements[i], conv) == Ok(Convert(target, v, conv).value.elements[i])
    ensures (exists i :: 0 <= i < |v.elements| && Convert(target, v.elements[i], conv).Err?) ==>
      Convert(target, v, conv).Err?
  {
    if Convert(target, v, conv).Ok? {
      ConvertElementsPointwise(target, v.elements, conv, v);
    }
  }
}
