/** The in-memory datasource: an insertion-ordered catalogue of tables by name,
    plus a list of attributes keyed by name, and the writer that fills one of
    its tables with variables, entities and values.

    The table's own bookkeeping (how it stores a variable, an entity or a value)
    belongs to the static value table, which is not part of this model; here a
    table keeps variables in an ordered map by name, entities in a list without
    duplicates and values by (entity identifier, variable name).

    A table is an object: a writer holds the table itself, not its name. Each
    table therefore carries an identity, handed out by the datasource from a
    counter when the table is created, and a writer writes only while the
    table filed under its name is the one it holds. */
module StaticDatasource {
  import opened Wrappers
  import opened Values
  import opened Schema
  import OrderedMap

  datatype Table = Table(
    id: nat,
    name: string,
    entityType: string,
    variables: OrderedMap.OMap<Variable>,
    entities: seq<Entity>,
    values: map<(string, string), Value>)

  /** `nextId` is the identity the next created table receives. */
  datatype Datasource = Datasource(name: string, attributes: seq<Attribute>, tables: OrderedMap.OMap<Table>, nextId: nat)

  /** A handle on the table a writer fills: its name and its identity. */
  datatype Writer = Writer(table: string, id: nat)

  predicate NoDuplicates(es: seq<Entity>) {
    forall i, j :: 0 <= i < j < |es| ==> es[i] != es[j]
  }

  predicate TableValid(t: Table) {
    OrderedMap.Valid(t.variables) && NoDuplicates(t.entities)
  }

  /** Each table is filed under its own name, and every filed identity was
      handed out before. */
  predicate Valid(ds: Datasource) {
    && OrderedMap.Valid(ds.tables)
    && forall n :: n in ds.tables.entries ==>
         && ds.tables.entries[n].name == n
         && TableValid(ds.tables.entries[n])
         && ds.tables.entries[n].id < ds.nextId
  }

  /** A fresh datasource: no tables and no attributes. */
  function New(name: string): (ds: Datasource)
    ensures Valid(ds) && ds.name == name
    ensures ds.attributes == [] && ds.tables.keys == []
  {
    Datasource(name, [], OrderedMap.Empty(), 0)
  }

  /** `getType`: the kind of every datasource of this implementation. */
  function Type(): (r: string)
    ensures r == "static"
  {
    "static"
  }

  /** Insert or replace the table filed under its name. No later table is
      given the identity of `t`. */
  function AddValueTable(ds: Datasource, t: Table): (r: Datasource)
    requires Valid(ds) && TableValid(t)
    ensures Valid(r)
    ensures GetValueTable(r, t.name) == Some(t)
    ensures forall n :: n != t.name ==> GetValueTable(r, n) == GetValueTable(ds, n)
    ensures r.name == ds.name && r.attributes == ds.attributes
    ensures ds.nextId <= r.nextId && t.id < r.nextId
  {
    var next := if t.id < ds.nextId then ds.nextId else t.id + 1;
    ds.(tables := OrderedMap.Put(ds.tables, t.name, t), nextId := next)
  }

  function HasValueTable(ds: Datasource, n: string): (b: bool)
    ensures b <==> n in ds.tables.entries
  {
    n in ds.tables.entries
  }

  /** The table filed under `n`; None (a null table, not an error) when there
      is none. */
  function GetValueTable(ds: Datasource, n: string): (r: Option<Table>)
    ensures r.Some? <==> HasValueTable(ds, n)
    ensures r.Some? ==> r.value == ds.tables.entries[n]
  {
    OrderedMap.Get(ds.tables, n)
  }

  /** All tables, as a set. */
  function GetValueTables(ds: Datasource): (r: set<Table>)
    requires Valid(ds)
    ensures forall t :: t in r <==> HasValueTable(ds, t.name) && GetValueTable(ds, t.name) == Some(t)
  {
    set n | n in ds.tables.keys :: ds.tables.entries[n]
  }

  function CanDropTable(ds: Datasource, n: string): (b: bool)
    ensures b == HasValueTable(ds, n)
  {
    HasValueTable(ds, n)
  }

  /** Remove the table filed under `n`, if any. */
  function DropTable(ds: Datasource, n: string): (r: Datasource)
    requires Valid(ds)
    ensures Valid(r)
    ensures !HasValueTable(r, n)
    ensures forall m :: m != n ==> GetValueTable(r, m) == GetValueTable(ds, m)
    ensures r.name == ds.name && r.attributes == ds.attributes && r.nextId == ds.nextId
  {
    ds.(tables := OrderedMap.Remove(ds.tables, n))
  }

  /** Dropping a table that is not there changes nothing. */
  lemma DropMissingTable(ds: Datasource, n: string)
    requires Valid(ds) && !HasValueTable(ds, n)
    ensures DropTable(ds, n) == ds
  {
    OrderedMap.RemoveAbsent(ds.tables, n);
  }

  /** Forget every table; the name and the attributes stay. */
  function Dispose(ds: Datasource): (r: Datasource)
    ensures Valid(r)
    ensures forall n :: !HasValueTable(r, n)
    ensures GetValueTables(r) == {}
    ensures r.name == ds.name && r.attributes == ds.attributes && r.nextId == ds.nextId
  {
    ds.(tables := OrderedMap.Empty())
  }

  /** The empty table a writer creates, with identity `id`. */
  function EmptyTable(id: nat, name: string, entityType: string): (t: Table)
    ensures TableValid(t) && t.id == id && t.name == name && t.entityType == entityType
    ensures t.variables.keys == [] && t.entities == [] && t.values == map[]
  {
    Table(id, name, entityType, OrderedMap.Empty(), [], map[])
  }

  /** The writer `w` holds the table filed under its name. */
  predicate Targets(ds: Datasource, w: Writer) {
    HasValueTable(ds, w.table) && ds.tables.entries[w.table].id == w.id
  }

  /** `createWriter`: a null table name or entity type is refused first; an
      existing table is reused as it is (whatever its entity type), otherwise
      one new empty table of that name and entity type, with a fresh identity,
      is filed. The writer holds the table filed under the name. */
  function CreateWriter(ds: Datasource, tableName: Option<string>, entityType: Option<string>): (r: Result<(Datasource, Writer), Error>)
    requires Valid(ds)
    ensures tableName.None? ==> r == Err(IllegalArgument("tableName cannot be null"))
    ensures tableName.Some? && entityType.None? ==> r == Err(IllegalArgument("entityType cannot be null"))
    ensures tableName.Some? && entityType.Some? ==> r.Ok?
    ensures r.Ok? ==> Valid(r.value.0) && r.value.1.table == tableName.value && Targets(r.value.0, r.value.1)
    ensures r.Ok? && HasValueTable(ds, tableName.value) ==> r.value.0 == ds
    ensures r.Ok? && !HasValueTable(ds, tableName.value) ==>
      && GetValueTable(r.value.0, tableName.value) == Some(EmptyTable(ds.nextId, tableName.value, entityType.value))
      && r.value.0.tables.keys == ds.tables.keys + [tableName.value]
      && (forall n :: n != tableName.value ==> GetValueTable(r.value.0, n) == GetValueTable(ds, n))
      && r.value.0.nextId == ds.nextId + 1
  {
    if tableName.None? then Err(IllegalArgument("tableName cannot be null"))
    else if entityType.None? then Err(IllegalArgument("entityType cannot be null"))
    else if HasValueTable(ds, tableName.value) then
      Ok((ds, Writer(tableName.value, ds.tables.entries[tableName.value].id)))
    else
      var t := EmptyTable(ds.nextId, tableName.value, entityType.value);
      Ok((AddValueTable(ds, t), Writer(tableName.value, t.id)))
  }

  /** Asking twice for a writer on the same table creates it at most once. */
  lemma CreateWriterTwice(ds: Datasource, tableName: string, entityType: string, entityType2: string)
    requires Valid(ds)
    ensures var first := CreateWriter(ds, Some(tableName), Some(entityType)).value;
      CreateWriter(first.0, Some(tableName), Some(entityType2)) == Ok(first)
  {
  }

  /** Creating a writer on a new name and dropping that table again restores
      the catalogue; only the identity counter has moved on, so the dropped
      table's identity is never handed out again. */
  lemma CreateWriterThenDrop(ds: Datasource, tableName: string, entityType: string)
    requires Valid(ds) && !HasValueTable(ds, tableName)
    ensures var (ds1, w) := CreateWriter(ds, Some(tableName), Some(entityType)).value;
      && DropTable(ds1, tableName) == ds.(nextId := ds.nextId + 1)
      && w.id == ds.nextId
  {
    OrderedMap.RemovePut(ds.tables, tableName, EmptyTable(ds.nextId, tableName, entityType));
  }

  // ---------------------------------------------------------------------------
  // Attributes

  /** The attributes named `n`, in order. */
  function Named(attrs: seq<Attribute>, n: string): (r: seq<Attribute>)
    ensures |r| <= |attrs|
    ensures forall a :: a in r <==> a in attrs && a.name == n
  {
    if |attrs| == 0 then []
    else if attrs[0].name == n then [attrs[0]] + Named(attrs[1..], n)
    else Named(attrs[1..], n)
  }

  /** The position of the first attribute named `n`, or the length when none is. */
  function FirstNamed(attrs: seq<Attribute>, n: string): (i: nat)
    ensures i <= |attrs|
    ensures i < |attrs| ==> attrs[i].name == n
    ensures forall j :: 0 <= j < i ==> attrs[j].name != n
  {
    if |attrs| == 0 then 0
    else if attrs[0].name == n then 0
    else 1 + FirstNamed(attrs[1..], n)
  }

  /** `setAttributeValue`: the first attribute named `name` is replaced, in
      place, by one holding `value`; when there is none, one is appended. */
  function SetAttributeValue(ds: Datasource, name: string, value: Value): (r: Datasource)
    ensures r.name == ds.name && r.tables == ds.tables
    ensures Named(r.attributes, name) ==
      if |Named(ds.attributes, name)| == 0 then [NewAttribute(name, value)]
      else [NewAttribute(name, value)] + Named(ds.attributes, name)[1..]
    ensures forall n :: n != name ==> Named(r.attributes, n) == Named(ds.attributes, n)
  {
    var a := NewAttribute(name, value);
    var i := FirstNamed(ds.attributes, name);
    if i < |ds.attributes| then
      ReplaceFirstNamed(ds.attributes, name, a);
      ds.(attributes := ds.attributes[i := a])
    else
      NoneNamed(ds.attributes, name);
      AppendNamed(ds.attributes, a);
      ds.(attributes := ds.attributes + [a])
  }

  lemma {:induction false} NoneNamed(attrs: seq<Attribute>, n: string)
    requires FirstNamed(attrs, n) == |attrs|
    ensures Named(attrs, n) == []
  {
    if |attrs| > 0 {
      NoneNamed(attrs[1..], n);
    }
  }

  lemma {:induction false} AppendNamed(attrs: seq<Attribute>, a: Attribute)
    ensures forall n :: Named(attrs + [a], n) == Named(attrs, n) + (if a.name == n then [a] else [])
  {
    if |attrs| == 0 {
      assert attrs + [a] == [a];
    } else {
      assert (attrs + [a])[1..] == attrs[1..] + [a];
      AppendNamed(attrs[1..], a);
    }
  }

  /** Replacing the first attribute named `n` by `a` (also named `n`) replaces
      the head of the `n` list and leaves every other list alone. */
  lemma {:induction false} ReplaceFirstNamed(attrs: seq<Attribute>, n: string, a: Attribute)
    requires FirstNamed(attrs, n) < |attrs| && a.name == n
    ensures var i := FirstNamed(attrs, n);
      && |Named(attrs, n)| > 0
      && Named(attrs[i := a], n) == [a] + Named(attrs, n)[1..]
      && forall m :: m != n ==> Named(attrs[i := a], m) == Named(attrs, m)
  {
    if attrs[0].name == n {
      assert attrs[0 := a][1..] == attrs[1..];
    } else {
      var i := FirstNamed(attrs, n);
      assert FirstNamed(attrs[1..], n) == i - 1;
      ReplaceFirstNamed(attrs[1..], n, a);
      assert attrs[i := a][0] == attrs[0];
      assert attrs[i := a][1..] == attrs[1..][i - 1 := a];
      assert Named(attrs, n) == Named(attrs[1..], n);
      assert Named(attrs[i := a], n) == Named(attrs[1..][i - 1 := a], n);
    }
  }

  /** Setting the same attribute value twice is setting it once. */
  lemma SetAttributeValueIdempotent(ds: Datasource, name: string, value: Value)
    ensures Named(SetAttributeValue(SetAttributeValue(ds, name, value), name, value).attributes, name)
      == Named(SetAttributeValue(ds, name, value).attributes, name)
  {
  }

  // ---------------------------------------------------------------------------
  // The table writer

  /** File `t`, the new state of the writer's table, when the writer's table
      is the one filed under its name. */
  function UpdateTable(ds: Datasource, w: Writer, t: Table): (r: Datasource)
    requires Valid(ds) && TableValid(t) && t.name == w.table && t.id == w.id
    ensures Valid(r)
  {
    if Targets(ds, w) then AddValueTable(ds, t) else ds
  }

  /** `writeVariable`: the writer's table records (a copy of) the variable
      under its name. */
  function WriteVariable(ds: Datasource, w: Writer, v: Variable): (r: Datasource)
    requires Valid(ds)
    ensures Valid(r)
    ensures forall n :: n != w.table ==> GetValueTable(r, n) == GetValueTable(ds, n)
    ensures HasValueTable(r, w.table) <==> HasValueTable(ds, w.table)
    ensures Targets(r, w) <==> Targets(ds, w)
    ensures !Targets(ds, w) ==> r == ds
    ensures Targets(ds, w) ==>
      var before := ds.tables.entries[w.table];
      var after := r.tables.entries[w.table];
      && OrderedMap.Get(after.variables, v.name) == Some(v)
      && (forall m :: m != v.name ==> OrderedMap.Get(after.variables, m) == OrderedMap.Get(before.variables, m))
      && after.entities == before.entities && after.values == before.values
  {
    if Targets(ds, w) then
      var t := ds.tables.entries[w.table];
      UpdateTable(ds, w, t.(variables := OrderedMap.Put(t.variables, v.name, v)))
    else ds
  }

  /** Register `e` in `es` unless it is already there. */
  function Register(es: seq<Entity>, e: Entity): (r: seq<Entity>)
    ensures NoDuplicates(es) ==> NoDuplicates(r)
    ensures forall x :: x in r <==> x in es || x == e
    ensures e in es ==> r == es
    ensures e !in es ==> r == es + [e]
  {
    if e in es then es else es + [e]
  }

  /** `writeValueSet`: the entity is registered in the table when absent. */
  function WriteValueSet(ds: Datasource, w: Writer, e: Entity): (r: Datasource)
    requires Valid(ds)
    ensures Valid(r)
    ensures forall n :: n != w.table ==> GetValueTable(r, n) == GetValueTable(ds, n)
    ensures HasValueTable(r, w.table) <==> HasValueTable(ds, w.table)
    ensures Targets(r, w) <==> Targets(ds, w)
    ensures !Targets(ds, w) ==> r == ds
    ensures Targets(ds, w) ==>
      var before := ds.tables.entries[w.table];
      var after := r.tables.entries[w.table];
      && e in after.entities
      && (forall x :: x in after.entities <==> x in before.entities || x == e)
      && after.variables == before.variables && after.values == before.values
  {
    if Targets(ds, w) then
      var t := ds.tables.entries[w.table];
      UpdateTable(ds, w, t.(entities := Register(t.entities, e)))
    else ds
  }

  /** Opening a value set for the same entity twice registers it once. */
  lemma WriteValueSetIdempotent(ds: Datasource, w: Writer, e: Entity)
    requires Valid(ds)
    ensures WriteValueSet(WriteValueSet(ds, w, e), w, e) == WriteValueSet(ds, w, e)
  {
    if Targets(ds, w) {
      var t0 := ds.tables.entries[w.table];
      var t1 := t0.(entities := Register(t0.entities, e));
      assert WriteValueSet(ds, w, e) == AddValueTable(ds, t1);
      var r := AddValueTable(ds, t1);
      assert r.tables.entries[w.table] == t1;
      assert t1.(entities := Register(t1.entities, e)) == t1;
      assert WriteValueSet(r, w, e) == AddValueTable(r, t1);
      OrderedMap.PutIdempotent(ds.tables, w.table, t1);
    }
  }

  /** `writeValue`: the value is recorded for the entity and the variable. */
  function WriteValue(ds: Datasource, w: Writer, e: Entity, v: Variable, value: Value): (r: Datasource)
    requires Valid(ds)
    ensures Valid(r)
    ensures forall n :: n != w.table ==> GetValueTable(r, n) == GetValueTable(ds, n)
    ensures HasValueTable(r, w.table) <==> HasValueTable(ds, w.table)
    ensures Targets(r, w) <==> Targets(ds, w)
    ensures !Targets(ds, w) ==> r == ds
    ensures Targets(ds, w) ==>
      var before := ds.tables.entries[w.table];
      var after := r.tables.entries[w.table];
      && after.values == before.values[(e.identifier, v.name) := value]
      && after.variables == before.variables && after.entities == before.entities
  {
    if Targets(ds, w) then
      var t := ds.tables.entries[w.table];
      UpdateTable(ds, w, t.(values := t.values[(e.identifier, v.name) := value]))
    else ds
  }

  /** A writer holds the table it was created on, not the name: once that
      table is dropped and a new one is created under the same name, the old
      writer no longer reaches the catalogue, and its writes change nothing. */
  lemma StaleWriterAfterRecreate(ds: Datasource, name: string, entityType: string, entityType2: string,
                                 e: Entity, v: Variable, value: Value)
    requires Valid(ds)
    ensures var (ds1, w1) := CreateWriter(ds, Some(name), Some(entityType)).value;
      var ds2 := DropTable(ds1, name);
      var (ds3, w2) := CreateWriter(ds2, Some(name), Some(entityType2)).value;
      && w1.table == w2.table && w1 != w2
      && Targets(ds3, w2) && !Targets(ds3, w1)
      && WriteVariable(ds3, w1, v) == ds3
      && WriteValueSet(ds3, w1, e) == ds3
      && WriteValue(ds3, w1, e, v, value) == ds3
  {
    var (ds1, w1) := CreateWriter(ds, Some(name), Some(entityType)).value;
    assert w1.id < ds1.nextId;
    var ds2 := DropTable(ds1, name);
    var (ds3, w2) := CreateWriter(ds2, Some(name), Some(entityType2)).value;
    assert w2.id == ds2.nextId;
  }

  /** Filing another table under the writer's name cuts the writer off. */
  lemma ReplacedTableCutsWriterOff(ds: Datasource, w: Writer, t: Table, e: Entity)
    requires Valid(ds) && TableValid(t) && t.name == w.table && t.id != w.id
    ensures !Targets(AddValueTable(ds, t), w)
    ensures WriteValueSet(AddValueTable(ds, t), w, e) == AddValueTable(ds, t)
  {
  }
}
