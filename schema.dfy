/**
 * The schema catalog the join planner reads: for every resource type its base
 * table and its declared relationships. The catalog is external to the planner
 * and read-only; the model takes it as a value.
 */
module Schema {
  import opened Wrappers

  /** A resource type, named by its JSON:API type (`posts`, `people`, ...). */
  type ResourceType = string

  /**
   * A relationship declared on `owner`. A plain relationship has exactly one
   * target type; a polymorphic one lists its concrete target types in
   * declaration order. `pluralName` is the association's plural name, which the
   * query builder puts in front of the owner's table to disambiguate an alias.
   */
  datatype Relationship = Relationship(
    owner: ResourceType,
    name: string,
    targets: seq<ResourceType>,
    polymorphic: bool,
    pluralName: string)

  datatype Resource = Resource(table: string, relationships: map<string, Relationship>)

  type Catalog = map<ResourceType, Resource>

  /** The relationship called `name` on resource type `owner`, if there is one. */
  function FindRelationship(catalog: Catalog, owner: Option<ResourceType>, name: string): (r: Option<Relationship>)
    ensures r.Some? <==> owner.Some? && owner.value in catalog && name in catalog[owner.value].relationships
    ensures r.Some? ==> r.value == catalog[owner.value].relationships[name]
    ensures r.Some? ==> r.value in catalog[owner.value].relationships.Values
  {
    match owner
    case None => None
    case Some(t) =>
      if t in catalog && name in catalog[t].relationships then Some(catalog[t].relationships[name]) else None
  }

  /** The base table of a resource type; a type missing from the catalog is its own table name. */
  function TableOf(catalog: Catalog, t: ResourceType): string
  {
    if t in catalog then catalog[t].table else t
  }

  /**
   * The single related type of a plain relationship (the relationship's own
   * resource class); a polymorphic relationship has none.
   */
  function DefaultTarget(rel: Relationship): (t: Option<ResourceType>)
    ensures t.Some? ==> !rel.polymorphic && rel.targets == [t.value]
    ensures !rel.polymorphic && |rel.targets| == 1 ==> t.Some?
  {
    if !rel.polymorphic && |rel.targets| == 1 then Some(rel.targets[0]) else None
  }
}
