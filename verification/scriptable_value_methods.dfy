/** The methods the scripting layer offers on every value: its native form,
    its type (or a conversion to another type), conversion to a calendar date
    or date-time through a caller-given date pattern, its length, and its view
    as a sequence.

    The script engine's own machinery is not modelled: a script value is the
    value it wraps, and the operations this code delegates elsewhere (type
    conversion, rendering as text, the length of a value, date-pattern
    parsing) are supplied by the caller as a `Host`. */
module ScriptableValueMethods {
  import opened Wrappers
  import opened Calendar
  import opened Values
  import Dates

  /** The collaborators the methods call but do not define. */
  datatype Host = Host(
    convert: ScalarConverter,                    // conversion of one non-null payload
    render: Value -> string,                     // the text of a value
    length: Value -> nat,                        // the length of a non-null value
    patternError: string -> Option<string>,      // why a date pattern is ill formed, if it is
    parse: (string, string) -> Option<Instant>)  // reading a text with a date pattern

  /** A script argument: null, or an object whose text is `text`. */
  datatype ScriptArg = ScriptNull | ScriptText(text: string)

  // ---------------------------------------------------------------------------
  // value()

  /** `value()`: the wrapped value handed to the script engine as a native
      object, or nothing (script null) when the value is null. */
  function NativeValue(v: Value): (r: Option<Value>)
    ensures r.None? <==> IsNull(v)
    ensures r.Some? ==> r.value == v
  {
    if IsNull(v) then None else Some(v)
  }

  // ---------------------------------------------------------------------------
  // type()

  /** `type()`: with no argument, a text value holding the name of the value's
      type; otherwise the value converted to the type named by the first
      argument. Further arguments are ignored. */
  function TypeOf(v: Value, args: seq<ScriptArg>, host: Host): (r: Result<Value, Error>)
    ensures |args| == 0 ==> r == Ok(TextValue(TypeName(v.vt)))
    ensures |args| > 0 && args[0].ScriptNull? ==> r == Err(NullReference)
    ensures |args| > 0 && args[0].ScriptText? && ForName(args[0].text).None? ==> r == Err(UnknownValueType(args[0].text))
    ensures |args| > 0 && args[0].ScriptText? && ForName(args[0].text).Some? ==>
      r == Convert(ForName(args[0].text).value, v, host.convert)
    ensures r.Ok? && |args| > 0 ==> TypeName(r.value.vt) == args[0].text
  {
    if |args| == 0 then Ok(TextValue(TypeName(v.vt)))
    else
      match args[0]
      case ScriptNull => Err(NullReference)
      case ScriptText(name) =>
        match ForName(name)
        case None => Err(UnknownValueType(name))
        case Some(t) => Convert(t, v, host.convert)
  }

  /** Only the first argument of `type()` matters. */
  lemma TypeOfIgnoresExtraArguments(v: Value, args: seq<ScriptArg>, host: Host)
    requires |args| > 0
    ensures TypeOf(v, args, host) == TypeOf(v, args[..1], host)
  {
  }

  /** Asking for the type's name and then converting to the type of that name
      keeps the value's type, shape and nullness. */
  lemma TypeOfOwnName(v: Value, host: Host)
    ensures TypeOf(v, [], host).Ok?
    ensures TypeOf(v, [], host).value.payload == Some(TextP(TypeName(v.vt)))
    ensures var r := TypeOf(v, [ScriptText(TypeName(v.vt))], host);
      r == Convert(v.vt, v, host.convert)
      && (r.Ok? ==> r.value.vt == v.vt && (IsNull(r.value) <==> IsNull(v)) && (IsSequence(r.value) <==> IsSequence(v)))
  {
    ForNameOfTypeName(v.vt);
  }

  /** On a sequence, `type(name)` converts element by element: each element of
      a successful result is the conversion of the element at the same
      position, and one element that does not convert fails the whole. */
  lemma TypeOfSequence(v: Value, name: string, host: Host)
    requires v.Sequence? && ForName(name).Some?
    ensures var r := TypeOf(v, [ScriptText(name)], host);
      && (r.Ok? ==> r.value.Sequence? && |r.value.elements| == |v.elements|)
      && (r.Ok? ==> forall i :: 0 <= i < |v.elements| ==>
            Convert(ForName(name).value, v.elements[i], host.convert) == Ok(r.value.elements[i]))
      && ((exists i :: 0 <= i < |v.elements| && Convert(ForName(name).value, v.elements[i], host.convert).Err?) ==> r.Err?)
  {
    ConvertSequencePointwise(ForName(name).value, v, host.convert);
  }

  // ---------------------------------------------------------------------------
  // date() and datetime()

  /** The two targets of the date conversions. */
  datatype DateTarget = CalendarDate | DateAndTime

  /** The message of the error raised when the date pattern argument is absent. */
  const MissingFormat: string := "date format is missing to date()"

  /** The error raised when `pattern` cannot read `text`. */
  function ParseFailure(pattern: string, text: string): Error {
    Evaluation("date format '" + pattern + "' fails to parse: " + text)
  }

  /** The value a successfully read instant becomes: a calendar date keeps
      only the instant's date, a date-time keeps the whole instant. */
  function InstantValue(target: DateTarget, t: Instant): (r: Value)
    ensures !IsNull(r) && !IsSequence(r)
    ensures target.CalendarDate? ==> r == Dates.DateValue(t.date)
    ensures target.DateAndTime? ==> r.vt == DateTimeType && r.payload == Some(DateTimeP(t))
  {
    match target
    case CalendarDate => Dates.ValueOfObject(Dates.UtilDateObject(t)).value
    case DateAndTime => Scalar(DateTimeType, Some(DateTimeP(t)))
  }

  /** The single-value step: a missing or null text gives the calendar-date
      null whatever the target; otherwise the text of `textValue` is read with
      the pattern, and a failure names the pattern and that text. */
  function ReadDate(target: DateTarget, textValue: Value, pattern: string, host: Host): (r: Result<Value, Error>)
    ensures IsNull(textValue) ==> r == Ok(NullValue(DateType))
    ensures !IsNull(textValue) ==>
      (r.Ok? <==> host.parse(pattern, host.render(textValue)).Some?)
    ensures !IsNull(textValue) && r.Ok? ==>
      r.value == InstantValue(target, host.parse(pattern, host.render(textValue)).value)
    ensures r.Err? ==> r.error == ParseFailure(pattern, host.render(textValue))
  {
    if IsNull(textValue) then Ok(NullValue(DateType))
    else
      match host.parse(pattern, host.render(textValue))
      case None => Err(ParseFailure(pattern, host.render(textValue)))
      case Some(t) => Ok(InstantValue(target, t))
  }

  /** `getDateValue` as written: the value is first converted to text; a null
      sequence gives the calendar-date null sequence; a non-null sequence gives
      a calendar-date sequence of the same length whose every element is read
      from the text of the WHOLE converted sequence, not from the element; a
      scalar is read on its own. An ill-formed pattern is refused after the
      text conversion and before any reading. */
  function DateValueOf(target: DateTarget, v: Value, pattern: string, host: Host): (r: Result<Value, Error>)
    ensures Convert(TextType, v, host.convert).Err? ==> r == Err(Convert(TextType, v, host.convert).error)
    ensures Convert(TextType, v, host.convert).Ok? && host.patternError(pattern).Some? ==>
      r == Err(IllegalArgument(host.patternError(pattern).value))
    ensures r.Ok? ==> (IsSequence(r.value) <==> IsSequence(v)) && (IsNull(r.value) <==> IsNull(v))
    ensures r.Ok? && IsSequence(v) ==> r.value.vt == DateType
    ensures r.Ok? && v.Sequence? ==> |r.value.elements| == |v.elements|
    ensures r.Ok? && v.Sequence? && |v.elements| > 0 ==>
      forall i :: 0 <= i < |v.elements| ==>
        Ok(r.value.elements[i]) == ReadDate(target, Convert(TextType, v, host.convert).value, pattern, host)
    ensures Convert(TextType, v, host.convert).Ok? && host.patternError(pattern).None? ==>
      var tv := Convert(TextType, v, host.convert).value;
      && (!IsSequence(v) ==> r == ReadDate(target, tv, pattern, host))
      && (v.NullSeq? ==> r == Ok(NullSeq(DateType)))
      && (v.Sequence? && |v.elements| == 0 ==> r == Ok(Sequence(DateType, [])))
      && (v.Sequence? && |v.elements| > 0 ==>
            (r.Err? <==> ReadDate(target, tv, pattern, host).Err?)
            && (r.Err? ==> r == Err(ParseFailure(pattern, host.render(tv)))))
  {
    var textValue :- Convert(TextType, v, host.convert);
    if host.patternError(pattern).Some? then Err(IllegalArgument(host.patternError(pattern).value))
    else
      match textValue
      case NullSeq(_) => Ok(NullSeq(DateType))
      case Sequence(_, xs) =>
        if |xs| == 0 then Ok(Sequence(DateType, []))
        else
          var d :- ReadDate(target, textValue, pattern, host);
          Ok(Sequence(DateType, seq(|xs|, _ => d)))
      case Scalar(_, _) => ReadDate(target, textValue, pattern, host)
  }

  /** `date(pattern)` and `datetime(pattern)`: a missing or null pattern is an
      evaluation error raised before any conversion; further arguments are
      ignored. */
  function DateOf(target: DateTarget, v: Value, args: seq<ScriptArg>, host: Host): (r: Result<Value, Error>)
    ensures |args| == 0 || args[0].ScriptNull? ==> r == Err(Evaluation(MissingFormat))
    ensures |args| > 0 && args[0].ScriptText? ==> r == DateValueOf(target, v, args[0].text, host)
  {
    if |args| == 0 || args[0].ScriptNull? then Err(Evaluation(MissingFormat))
    else DateValueOf(target, v, args[0].text, host)
  }

  /** Only the first argument of `date()`/`datetime()` matters. */
  lemma DateOfIgnoresExtraArguments(target: DateTarget, v: Value, args: seq<ScriptArg>, host: Host)
    requires |args| > 0
    ensures DateOf(target, v, args, host) == DateOf(target, v, args[..1], host)
  {
  }

  /** A null scalar becomes the calendar-date null on both paths, so the
      date-time path yields a value of the calendar-date type. */
  lemma NullIsCalendarDateNull(target: DateTarget, t: ValueType, pattern: string, host: Host)
    requires host.patternError(pattern).None?
    ensures DateValueOf(target, NullValue(t), pattern, host) == Ok(NullValue(DateType))
  {
  }

  /** A null sequence becomes the calendar-date null sequence on both paths. */
  lemma NullSequenceIsCalendarDateNullSequence(target: DateTarget, t: ValueType, pattern: string, host: Host)
    requires host.patternError(pattern).None?
    ensures DateValueOf(target, NullSequence(t), pattern, host) == Ok(NullSequence(DateType))
  {
  }

  /** Every element of a converted sequence is the same value: two sequences
      with the same text give the same elements, whatever those elements are. */
  lemma DateSequenceElementsAgree(target: DateTarget, v: Value, pattern: string, host: Host, i: nat, j: nat)
    requires DateValueOf(target, v, pattern, host).Ok? && v.Sequence?
    requires i < |v.elements| && j < |v.elements|
    ensures DateValueOf(target, v, pattern, host).value.elements[i] == DateValueOf(target, v, pattern, host).value.elements[j]
  {
  }

  /** The element-wise conversion the method's documentation describes: each
      element of the converted sequence is read from its own text. */
  function DateValueOfElementwise(target: DateTarget, v: Value, pattern: string, host: Host): (r: Result<Value, Error>)
    ensures Convert(TextType, v, host.convert).Err? ==> r == Err(Convert(TextType, v, host.convert).error)
    ensures r.Ok? ==> (IsSequence(r.value) <==> IsSequence(v)) && (IsNull(r.value) <==> IsNull(v))
    ensures r.Ok? && v.Sequence? ==> r.value.vt == DateType && |r.value.elements| == |v.elements|
    ensures r.Ok? && v.Sequence? ==>
      forall i :: 0 <= i < |v.elements| ==>
        Ok(r.value.elements[i]) == ReadDate(target, Convert(TextType, v, host.convert).value.elements[i], pattern, host)
    ensures Convert(TextType, v, host.convert).Ok? && host.patternError(pattern).Some? ==>
      r == Err(IllegalArgument(host.patternError(pattern).value))
    ensures Convert(TextType, v, host.convert).Ok? && host.patternError(pattern).None? ==>
      var tv := Convert(TextType, v, host.convert).value;
      && (!IsSequence(v) ==> r == ReadDate(target, tv, pattern, host))
      && (v.NullSeq? ==> r == Ok(NullSeq(DateType)))
      && (v.Sequence? ==> (r.Err? <==> ReadDates(target, tv.elements, pattern, host).Err?))
      && (v.Sequence? && |v.elements| == 0 ==> r == Ok(Sequence(DateType, [])))
  {
    var textValue :- Convert(TextType, v, host.convert);
    if host.patternError(pattern).Some? then Err(IllegalArgument(host.patternError(pattern).value))
    else
      match textValue
      case NullSeq(_) => Ok(NullSeq(DateType))
      case Sequence(_, xs) =>
        var ds :- ReadDates(target, xs, pattern, host);
        Ok(Sequence(DateType, ds))
      case Scalar(_, _) => ReadDate(target, textValue, pattern, host)
  }

  /** Each text read on its own, failing on the first that cannot be read. */
  function ReadDates(target: DateTarget, xs: seq<Value>, pattern: string, host: Host): (r: Result<seq<Value>, Error>)
    ensures r.Ok? ==> |r.value| == |xs|
    ensures r.Ok? ==> forall i :: 0 <= i < |xs| ==> ReadDate(target, xs[i], pattern, host) == Ok(r.value[i])
    ensures r.Err? <==> exists i :: 0 <= i < |xs| && ReadDate(target, xs[i], pattern, host).Err?
  {
    if |xs| == 0 then Ok([])
    else
      var d :- ReadDate(target, xs[0], pattern, host);
      var ds :- ReadDates(target, xs[1..], pattern, host);
      assert forall i :: 1 <= i < |xs| ==> xs[i] == xs[1..][i - 1];
      Ok([d] + ds)
  }

  /** On a scalar the two readings agree; they part only on sequences. */
  lemma ElementwiseAgreesOnScalars(target: DateTarget, v: Value, pattern: string, host: Host)
    requires !IsSequence(v)
    ensures DateValueOf(target, v, pattern, host) == DateValueOfElementwise(target, v, pattern, host)
  {
  }

  /** The discrepancy: when the text of a whole two-element sequence reads as
      one instant and its second element's text as an instant of another date,
      the code as written repeats the first date where the element-wise reading
      gives the second. */
  lemma WholeTextDiffersFromElementText(v: Value, pattern: string, host: Host)
    requires v.Sequence? && |v.elements| == 2
    requires Convert(TextType, v, host.convert).Ok? && host.patternError(pattern).None?
    requires var tv := Convert(TextType, v, host.convert).value;
      && !IsNull(tv.elements[0]) && !IsNull(tv.elements[1])
      && host.parse(pattern, host.render(tv)).Some?
      && host.parse(pattern, host.render(tv.elements[0])).Some?
      && host.parse(pattern, host.render(tv.elements[1])).Some?
      && host.parse(pattern, host.render(tv.elements[1])).value.date != host.parse(pattern, host.render(tv)).value.date
    ensures DateValueOf(CalendarDate, v, pattern, host).Ok?
    ensures DateValueOfElementwise(CalendarDate, v, pattern, host).Ok?
    ensures DateValueOf(CalendarDate, v, pattern, host).value.elements[1]
      != DateValueOfElementwise(CalendarDate, v, pattern, host).value.elements[1]
  {
    var tv := Convert(TextType, v, host.convert).value;
    assert ReadDate(CalendarDate, tv.elements[0], pattern, host).Ok?;
    assert ReadDate(CalendarDate, tv.elements[1], pattern, host).Ok?;
    var r := ReadDates(CalendarDate, tv.elements, pattern, host);
    assert r.Ok?;
  }

  // ---------------------------------------------------------------------------
  // length() and asSequence()

  /** The length of one value as an integer value; null stays null. */
  function LengthOfOne(e: Value, host: Host): (r: Value)
    ensures r.vt == IntegerType && !IsSequence(r)
    ensures IsNull(r) <==> IsNull(e)
    ensures !IsNull(e) ==> r == IntegerValue(host.length(e))
  {
    if IsNull(e) then NullValue(IntegerType) else IntegerValue(host.length(e))
  }

  /** `length()`: the length of a scalar, or for a sequence the sequence of
      its elements' lengths, as integer values; nulls stay null and the null
      sequence stays the null sequence. */
  function Length(v: Value, host: Host): (r: Value)
    ensures r.vt == IntegerType
    ensures IsSequence(r) <==> IsSequence(v)
    ensures IsNull(r) <==> IsNull(v)
    ensures v.Sequence? ==> r.Sequence? && |r.elements| == |v.elements|
    ensures v.Sequence? ==> forall i :: 0 <= i < |v.elements| ==> r.elements[i] == LengthOfOne(v.elements[i], host)
    ensures v.Scalar? ==> r == LengthOfOne(v, host)
  {
    match v
    case NullSeq(_) => NullSequence(IntegerType)
    case Sequence(_, xs) => Sequence(IntegerType, seq(|xs|, i requires 0 <= i < |xs| => LengthOfOne(xs[i], host)))
    case Scalar(_, _) => LengthOfOne(v, host)
  }

  /** `asSequence()`: a sequence is returned unchanged, a scalar (null or not)
      is wrapped in a one-element sequence of its own type. */
  function AsSequence(v: Value): (r: Value)
    ensures IsSequence(r) && r.vt == v.vt
    ensures IsSequence(v) ==> r == v
    ensures !IsSequence(v) ==> r.Sequence? && r.elements == [v]
  {
    if IsSequence(v) then v else SequenceOf(v.vt, [v])
  }

  lemma AsSequenceIdempotent(v: Value)
    ensures AsSequence(AsSequence(v)) == AsSequence(v)
  {
  }

  /** The length of a scalar viewed as a sequence is the one-element sequence
      of its length. */
  lemma LengthOfAsSequence(v: Value, host: Host)
    requires !IsSequence(v)
    ensures Length(AsSequence(v), host) == SequenceOf(IntegerType, [Length(v, host)])
  {
  }
}
