/** The filter that matches every item, built as an exclude filter for rows
    (value sets) or for columns (variable value sources). The generic filter
    base class and the filter chain are not part of this model; `Passes` gives
    the combination rule of a chain of include and exclude filters so that the
    effect of this filter can be stated. */
module ExcludeAllFilter {
  /** Whether a matching item is to be let in or kept out. */
  datatype FilterType = Include | Exclude

  /** The kinds of item a filter is built for. */
  datatype ItemKind = ValueSetItem | VariableValueSourceItem

  /** A filter that matches everything, for one kind of item. */
  datatype Filter = Filter(kind: ItemKind, filterType: FilterType)

  /** `runFilter`: every item matches. */
  function RunFilter<T>(f: Filter, item: T): (matches: bool)
    ensures matches
  {
    true
  }

  /** `buildForValueSet`: an exclude filter over rows. */
  function BuildForValueSet(): (f: Filter)
    ensures f.kind == ValueSetItem && f.filterType == Exclude
  {
    Filter(ValueSetItem, Exclude)
  }

  /** `buildForVariableValueSource`: an exclude filter over columns. */
  function BuildForVariableValueSource(): (f: Filter)
    ensures f.kind == VariableValueSourceItem && f.filterType == Exclude
  {
    Filter(VariableValueSourceItem, Exclude)
  }

  /** The chain rule: an item passes when no exclude filter matches it and
      either there is no include filter or one of them matches. */
  predicate Passes<T>(filters: seq<Filter>, item: T) {
    && (forall i :: 0 <= i < |filters| && filters[i].filterType == Exclude ==> !RunFilter(filters[i], item))
    && ((forall i :: 0 <= i < |filters| ==> filters[i].filterType != Include)
        || exists i :: 0 <= i < |filters| && filters[i].filterType == Include && RunFilter(filters[i], item))
  }

  /** A chain holding a built exclude-all filter lets nothing through, whatever
      include filters it also holds. */
  lemma ExcludeAllBlocks<T>(filters: seq<Filter>, k: nat, item: T)
    requires k < |filters| && filters[k] in {BuildForValueSet(), BuildForVariableValueSource()}
    ensures !Passes(filters, item)
  {
    assert filters[k].filterType == Exclude && RunFilter(filters[k], item);
  }
}
