/** The stored row of a relational table: the table and entity it belongs to,
    the set of its values (created empty on first access), and an index of
    those values by variable name that is built on first use and then kept,
    even if the value set changes afterwards. */
module ValueSetState {
  import opened Wrappers
  import opened Values
  import opened Schema

  /** One stored value of the row, for one variable. */
  datatype StoredValue = StoredValue(variable: Variable, value: Value)

  /** `values` and `valueMap` are absent (null) until first used. */
  datatype State = State(
    table: string,
    entity: Entity,
    values: Option<seq<StoredValue>>,
    valueMap: Option<map<string, StoredValue>>)

  /** The constructor records the table and the entity; nothing is loaded. */
  function New(table: string, entity: Entity): (st: State)
    ensures st.table == table && st.entity == entity
    ensures st.values.None? && st.valueMap.None?
  {
    State(table, entity, None, None)
  }

  /** `getValues`: the value set, created empty on first access and the same
      set on every later access. */
  function GetValues(st: State): (r: (State, seq<StoredValue>))
    ensures r.0.values == Some(r.1)
    ensures r.0.table == st.table && r.0.entity == st.entity && r.0.valueMap == st.valueMap
    ensures st.values.None? ==> r.1 == []
    ensures st.values.Some? ==> r.0 == st && r.1 == st.values.value
  {
    match st.values
    case Some(vs) => (st, vs)
    case None => (st.(values := Some([])), [])
  }

  lemma GetValuesStable(st: State)
    ensures GetValues(GetValues(st).0) == GetValues(st)
  {
  }

  /** A caller adding a value to the set returned by `getValues` (a set: a
      value already present is not added again). The index is not touched. */
  function AddValue(st: State, sv: StoredValue): (r: State)
    ensures r.values.Some? && sv in r.values.value
    ensures forall x :: x in r.values.value <==> x in GetValues(st).1 || x == sv
    ensures r.valueMap == st.valueMap && r.table == st.table && r.entity == st.entity
  {
    var (s1, vs) := GetValues(st);
    if sv in vs then s1 else s1.(values := Some(vs + [sv]))
  }

  /** The last value in `vs` whose variable is named `n`, searching from the
      end; None when no value has a variable of that name. */
  function LastNamed(vs: seq<StoredValue>, n: string): (r: Option<StoredValue>)
    ensures r.None? <==> forall i :: 0 <= i < |vs| ==> vs[i].variable.name != n
    ensures r.Some? ==> r.value.variable.name == n
    ensures r.Some? ==> exists i :: 0 <= i < |vs| && vs[i] == r.value && (forall j :: i < j < |vs| ==> vs[j].variable.name != n)
  {
    if |vs| == 0 then None
    else if vs[|vs| - 1].variable.name == n then Some(vs[|vs| - 1])
    else
      var r := LastNamed(vs[..|vs| - 1], n);
      assert forall i :: 0 <= i < |vs| - 1 ==> vs[..|vs| - 1][i] == vs[i];
      r
  }

  /** The index of `vs` by variable name, each value put in turn so that a
      later value of a variable overrides an earlier one. */
  function IndexByName(vs: seq<StoredValue>): (m: map<string, StoredValue>)
    ensures forall n :: n in m <==> LastNamed(vs, n).Some?
    ensures forall n :: n in m ==> m[n] == LastNamed(vs, n).value
  {
    if |vs| == 0 then map[]
    else
      var last := vs[|vs| - 1];
      IndexByName(vs[..|vs| - 1])[last.variable.name := last]
  }

  /** The keys of the index are exactly the variable names of the values, and
      each key leads to a value of a variable of that name. */
  lemma IndexKeys(vs: seq<StoredValue>)
    ensures forall n :: n in IndexByName(vs) <==> exists i :: 0 <= i < |vs| && vs[i].variable.name == n
    ensures forall n :: n in IndexByName(vs) ==> IndexByName(vs)[n].variable.name == n && IndexByName(vs)[n] in vs
  {
  }

  /** `getValueMap`: the index built on first use from the value set (which is
      created if need be) and returned unchanged from then on. */
  function GetValueMap(st: State): (r: (State, map<string, StoredValue>))
    ensures r.0.valueMap == Some(r.1)
    ensures r.0.table == st.table && r.0.entity == st.entity
    ensures st.valueMap.Some? ==> r.0 == st && r.1 == st.valueMap.value
    ensures st.valueMap.None? ==> r.0.values == Some(GetValues(st).1)
    ensures st.valueMap.None? ==> forall n :: (n in r.1 <==> LastNamed(GetValues(st).1, n).Some?)
    ensures st.valueMap.None? ==> forall n :: n in r.1 ==> r.1[n] == LastNamed(GetValues(st).1, n).value
  {
    match st.valueMap
    case Some(m) => (st, m)
    case None =>
      var (s1, vs) := GetValues(st);
      var m := IndexByName(vs);
      (s1.(valueMap := Some(m)), m)
  }

  /** Once built, the index does not follow later changes to the value set. */
  lemma ValueMapFrozen(st: State, sv: StoredValue)
    ensures var (s1, m) := GetValueMap(st);
      GetValueMap(AddValue(s1, sv)).1 == m
  {
  }
}
