/** The two constant sources: a column of a fixed type whose every value is
    null, and the timestamps of something that has none. */
module NullSources {
  import opened Values
  import opened Schema

  /** A value source of type `valueType` that holds only nulls. */
  datatype NullValueSource = NullValueSource(valueType: ValueType)

  function GetValueType(src: NullValueSource): (t: ValueType)
    ensures t == src.valueType
  {
    src.valueType
  }

  /** The value for any row: the null of the source's type. */
  function GetValue(src: NullValueSource, row: Entity): (v: Value)
    ensures v.vt == GetValueType(src) && IsNull(v) && !IsSequence(v)
  {
    NullValue(src.valueType)
  }

  /** The values for a list of rows: one null per row. */
  function GetValues(src: NullValueSource, rows: seq<Entity>): (vs: seq<Value>)
    ensures |vs| == |rows|
    ensures forall i :: 0 <= i < |rows| ==> vs[i] == GetValue(src, rows[i])
  {
    seq(|rows|, _ => NullValue(src.valueType))
  }

  /** The source serves vectors itself. */
  function AsVectorSource(src: NullValueSource): (r: NullValueSource)
    ensures GetValueType(r) == GetValueType(src)
    ensures forall rows :: GetValues(r, rows) == GetValues(src, rows)
  {
    src
  }

  /** Reading rows one by one and as a vector agree, and rows are all alike. */
  lemma ValuesAgreeWithValue(src: NullValueSource, rows: seq<Entity>, e: Entity)
    ensures forall v :: v in GetValues(src, rows) ==> v == GetValue(src, e)
  {
  }

  /** The timestamps of something that was never stamped. */
  function Created(): (v: Value)
    ensures v.vt == DateTimeType && IsNull(v) && !IsSequence(v)
  {
    NullValue(DateTimeType)
  }

  function LastUpdate(): (v: Value)
    ensures v.vt == DateTimeType && IsNull(v) && !IsSequence(v)
  {
    NullValue(DateTimeType)
  }

  /** Both timestamps are the same null value. */
  lemma CreatedIsLastUpdate()
    ensures Created() == LastUpdate() == NullValue(DateTimeType)
  {
  }
}
