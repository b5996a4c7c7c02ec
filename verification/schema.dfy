/** The catalogue entities the modelled code passes around: the entities rows
    are about, the variables columns are about, and name/value attributes. */
module Schema {
  import opened Wrappers
  import opened Values

  /** One row subject: an identifier within an entity type (participant, ...). */
  datatype Entity = Entity(entityType: string, identifier: string)

  /** One column: its name, the type of its values and the entity type it is
      about. */
  datatype Variable = Variable(name: string, valueType: ValueType, entityType: string)

  /** A named value, optionally qualified by a namespace and a locale. */
  datatype Attribute = Attribute(name: string, namespace: Option<string>, locale: Option<string>, value: Value)

  /** An attribute made from a name and a value only, as the attribute builder
      does when given nothing else. */
  function NewAttribute(name: string, value: Value): (a: Attribute)
    ensures a.name == name && a.value == value
    ensures a.namespace.None? && a.locale.None?
  {
    Attribute(name, None, None, value)
  }
}
