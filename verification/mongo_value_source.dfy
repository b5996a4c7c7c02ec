/** The value source of one variable of a document-store table. The variable's
    definition is cached together with the table's last-update timestamp and
    reloaded whenever that timestamp changes; the values of a list of rows are
    read lazily, one row per step, by an iterator that resolves the variable
    when it is created.

    The store itself is a `Backend`: the table's current last-update value, the
    lookup of a variable definition by name, and the lookup of a row's value
    for a variable. A Java null definition is `None`, and the null-pointer
    failure at its first use is `NullReference`. */
module MongoValueSource {
  import opened Wrappers
  import opened Values
  import opened Schema

  /** A stored variable definition: its field id, value type and whether it
      holds repeated values. */
  datatype StoredVariable = StoredVariable(id: string, name: string, valueType: ValueType, repeatable: bool)

  /** The store: the table's current last-update value, the lookup of a
      variable definition by name (which fails when the definition cannot be
      found or read), and the lookup of a row's value for a variable. */
  datatype Backend = Backend(
    lastUpdate: Value,
    findVariable: string -> Result<StoredVariable, Error>,
    read: (StoredVariable, Entity) -> Value)

  /** The source's two fields: the timestamp of the last lookup and the
      variable it loaded, each absent (null) until first set. */
  datatype Source = Source(name: string, lastUpdated: Option<Value>, variable: Option<StoredVariable>)

  function New(name: string): (s: Source)
    ensures s.name == name && s.lastUpdated.None? && s.variable.None?
  {
    Source(name, None, None)
  }

  /** Whether a lookup against `b` must reload the definition. */
  predicate Stale(s: Source, b: Backend) {
    s.lastUpdated.None? || s.lastUpdated.value != b.lastUpdate
  }

  /** `getVariable`: the cached definition, reloaded from the store when no
      lookup was made yet or the table's last update differs from the one
      recorded. The new timestamp is recorded BEFORE the definition is looked
      up, so a failing lookup leaves the new timestamp next to the previous
      definition (or none), and later calls at that timestamp return it
      without looking again. */
  function GetVariable(s: Source, b: Backend): (r: (Source, Result<Option<StoredVariable>, Error>))
    ensures r.0.name == s.name
    ensures r.0.lastUpdated == Some(b.lastUpdate)
    ensures Stale(s, b) && b.findVariable(s.name).Ok? ==>
      r.0.variable == Some(b.findVariable(s.name).value) && r.1 == Ok(r.0.variable)
    ensures Stale(s, b) && b.findVariable(s.name).Err? ==>
      r.0.variable == s.variable && r.1 == Err(b.findVariable(s.name).error)
    ensures !Stale(s, b) ==> r == (s, Ok(s.variable))
  {
    if Stale(s, b) then
      var s1 := s.(lastUpdated := Some(b.lastUpdate));
      match b.findVariable(s.name)
      case Ok(v) => (s1.(variable := Some(v)), Ok(Some(v)))
      case Err(e) => (s1, Err(e))
    else (s, Ok(s.variable))
  }

  /** The definition a caller goes on to use: a failed lookup is that failure,
      and a null definition fails with a null reference at its first use. */
  function Resolved(r: Result<Option<StoredVariable>, Error>): (v: Result<StoredVariable, Error>)
    ensures v.Ok? <==> r.Ok? && r.value.Some?
    ensures v.Ok? ==> v.value == r.value.value
    ensures r.Err? ==> v == Err(r.error)
    ensures r == Ok(None) ==> v == Err(NullReference)
  {
    match r
    case Err(e) => Err(e)
    case Ok(None) => Err(NullReference)
    case Ok(Some(v)) => Ok(v)
  }

  /** A second lookup with no change of timestamp does not reload: it returns
      the definition the first one left and leaves the source as it is. */
  lemma GetVariableTwice(s: Source, b: Backend)
    ensures var (s1, v1) := GetVariable(s, b);
      && !Stale(s1, b)
      && GetVariable(s1, b) == (s1, Ok(s1.variable))
      && (v1.Ok? ==> GetVariable(s1, b).1 == v1)
  {
  }

  /** A changed timestamp forces a reload, even when the definition was
      cached. */
  lemma GetVariableAfterUpdate(s: Source, b: Backend, b2: Backend)
    requires b2.lastUpdate != b.lastUpdate
    ensures var (s1, _) := GetVariable(s, b);
      && Stale(s1, b2)
      && (b2.findVariable(s.name).Ok? ==> GetVariable(s1, b2).1 == Ok(Some(b2.findVariable(s.name).value)))
      && (b2.findVariable(s.name).Err? ==> GetVariable(s1, b2).1 == Err(b2.findVariable(s.name).error))
  {
  }

  /** The ordering in `getVariable`: when the reload fails, the timestamp is
      recorded anyway, so the next call at the same timestamp does not look
      again and returns the definition from before the update: none, for a
      source whose first lookup failed, and then the type is a null
      reference. */
  lemma FailedLookupKeepsStaleVariable(s: Source, b: Backend)
    requires Stale(s, b) && b.findVariable(s.name).Err?
    ensures var (s1, r1) := GetVariable(s, b);
      && r1 == Err(b.findVariable(s.name).error)
      && !Stale(s1, b)
      && GetVariable(s1, b) == (s1, Ok(s.variable))
      && (s.variable.None? ==> GetValueType(s1, b).1 == Err(NullReference))
  {
  }

  /** `getValueType`: the type of the current, possibly refreshed, definition. */
  function GetValueType(s: Source, b: Backend): (r: (Source, Result<ValueType, Error>))
    ensures r.0 == GetVariable(s, b).0
    ensures r.1.Ok? <==> Resolved(GetVariable(s, b).1).Ok?
    ensures r.1.Ok? ==> r.1.value == Resolved(GetVariable(s, b).1).value.valueType
    ensures r.1.Err? ==> r.1.error == Resolved(GetVariable(s, b).1).error
  {
    var (s1, v) := GetVariable(s, b);
    match Resolved(v)
    case Err(e) => (s1, Err(e))
    case Ok(x) => (s1, Ok(x.valueType))
  }

  /** `getValue`: the value of one row, for the current definition. */
  function GetValue(s: Source, b: Backend, row: Entity): (r: (Source, Result<Value, Error>))
    ensures r.0 == GetVariable(s, b).0
    ensures r.1.Ok? <==> Resolved(GetVariable(s, b).1).Ok?
    ensures r.1.Ok? ==> r.1.value == b.read(Resolved(GetVariable(s, b).1).value, row)
    ensures r.1.Err? ==> r.1.error == Resolved(GetVariable(s, b).1).error
  {
    var (s1, v) := GetVariable(s, b);
    match Resolved(v)
    case Err(e) => (s1, Err(e))
    case Ok(x) => (s1, Ok(b.read(x, row)))
  }

  /** What `getValues` returns: nothing at all for no rows, otherwise the rows
      still to be read once an iterator is asked for. */
  datatype LazyValues = NoValues | Deferred(rows: seq<Entity>)

  /** `getValues`: no rows give the empty list without touching the cache or
      the store; otherwise nothing is read yet. */
  function GetValues(s: Source, rows: seq<Entity>): (r: LazyValues)
    ensures r.NoValues? <==> |rows| == 0
    ensures r.Deferred? ==> r.rows == rows
  {
    if |rows| == 0 then NoValues else Deferred(rows)
  }

  /** An iterator over the values: either over nothing, or over the rows left,
      with the definition resolved when the iterator was made. */
  datatype ValueIterator = Done | Reading(variable: StoredVariable, rows: seq<Entity>)

  /** `iterator()`: a deferred list resolves the variable now, so each iterator
      sees the definition current at its creation; the iterator cannot be made
      without one. */
  function Iterator(s: Source, b: Backend, vs: LazyValues): (r: (Source, Result<ValueIterator, Error>))
    ensures vs.NoValues? ==> r == (s, Ok(Done))
    ensures vs.Deferred? ==> r.0 == GetVariable(s, b).0
    ensures vs.Deferred? ==> (r.1.Ok? <==> Resolved(GetVariable(s, b).1).Ok?)
    ensures vs.Deferred? && r.1.Ok? ==> r.1.value == Reading(Resolved(GetVariable(s, b).1).value, vs.rows)
    ensures vs.Deferred? && r.1.Err? ==> r.1.error == Resolved(GetVariable(s, b).1).error
  {
    match vs
    case NoValues => (s, Ok(Done))
    case Deferred(rows) =>
      var (s1, v) := GetVariable(s, b);
      match Resolved(v)
      case Err(e) => (s1, Err(e))
      case Ok(x) => (s1, Ok(Reading(x, rows)))
  }

  /** How many values an iterator still has. */
  function Remaining(it: ValueIterator): nat {
    match it
    case Done => 0
    case Reading(_, rows) => |rows|
  }

  function HasNext(it: ValueIterator): (b: bool)
    ensures b <==> Remaining(it) > 0
  {
    it.Reading? && |it.rows| > 0
  }

  /** `next()`: the value of the next row, read with the iterator's definition;
      an exhausted iterator has no such element. */
  function Next(it: ValueIterator, b: Backend): (r: Result<(Value, ValueIterator), Error>)
    ensures r.Err? <==> !HasNext(it)
    ensures r.Err? ==> r.error == NoSuchElement
    ensures r.Ok? ==> r.value.0 == b.read(it.variable, it.rows[0])
    ensures r.Ok? ==> r.value.1 == Reading(it.variable, it.rows[1..])
    ensures r.Ok? ==> Remaining(r.value.1) == Remaining(it) - 1
  {
    if !HasNext(it) then Err(NoSuchElement)
    else Ok((b.read(it.variable, it.rows[0]), Reading(it.variable, it.rows[1..])))
  }

  /** `remove()` is not supported. */
  function Remove(it: ValueIterator): (r: Result<ValueIterator, Error>)
    ensures r == Err(UnsupportedOperation)
  {
    Err(UnsupportedOperation)
  }

  /** Reading a whole vector: ask for the values of `rows`, take an iterator
      and drain it. One value per row, in row order, each read with the
      definition resolved when the iterator was made; no rows read nothing
      and leave the source alone; without a definition nothing is read. */
  method ReadAll(s: Source, b: Backend, rows: seq<Entity>) returns (s2: Source, out: Result<seq<Value>, Error>)
    ensures |rows| == 0 ==> s2 == s && out == Ok([])
    ensures |rows| > 0 ==> s2 == GetVariable(s, b).0
    ensures |rows| > 0 ==> (out.Ok? <==> Resolved(GetVariable(s, b).1).Ok?)
    ensures |rows| > 0 && out.Err? ==> out.error == Resolved(GetVariable(s, b).1).error
    ensures out.Ok? ==> |out.value| == |rows|
    ensures out.Ok? ==> forall i :: 0 <= i < |rows| ==> out.value[i] == b.read(Resolved(GetVariable(s, b).1).value, rows[i])
  {
    var started := Iterator(s, b, GetValues(s, rows));
    s2 := started.0;
    if started.1.Err? {
      return s2, Err(started.1.error);
    }
    var it := started.1.value;
    var vs: seq<Value> := [];
    while HasNext(it)
      invariant |rows| == 0 ==> it == Done
      invariant |rows| > 0 ==> it.Reading? && it.variable == Resolved(GetVariable(s, b).1).value
      invariant |vs| + Remaining(it) == |rows|
      invariant |rows| > 0 ==> it.rows == rows[|vs|..]
      invariant forall i :: 0 <= i < |vs| ==> vs[i] == b.read(Resolved(GetVariable(s, b).1).value, rows[i])
      decreases Remaining(it)
    {
      var step := Next(it, b);
      var (v, rest) := step.value;
      vs := vs + [v];
      it := rest;
    }
    out := Ok(vs);
  }

  /** The source serves vectors itself. */
  function AsVectorSource(s: Source): (r: Source)
    ensures r.name == s.name && r.lastUpdated == s.lastUpdated && r.variable == s.variable
  {
    s
  }
}
