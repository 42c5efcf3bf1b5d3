/** The constant-data implementation used for System types that a metadata
    file does not define: everything comes from the constructor, the
    namespace is "System", and every collection is empty. */
module MockSystemType {
  import opened Wrappers
  import opened TypeMetadata
  import opened TypeDefinitions

  const SYSTEM_NAMESPACE: string := "System"

  /** The implementation built from a kind, a name, an optional base class
      and the type's attributes; the base is bound with no generic
      arguments. */
  function MockSystemTypeImpl(kind: TypeDefinitionKind, name: string, base: Option<TypeId>, attributes: TypeAttributes): (r: TypeImpl)
    ensures r.kind == kind && r.name == name && r.attributes == attributes
    ensures r.namespace == Some(SYSTEM_NAMESPACE)
    ensures r.enclosingType.None? && r.classLayout == ClassLayout(0, 0)
    ensures r.base.None? <==> base.None?
    ensures base.Some? ==> r.base == Some(BoundType(base.value, []))
    ensures r.baseInterfaces == [] && r.genericParams == [] && r.nestedTypes == []
    ensures r.methods == [] && r.fields == [] && r.properties == [] && r.events == []
  {
    TypeImpl(
      kind := kind,
      name := name,
      namespace := Some(SYSTEM_NAMESPACE),
      attributes := attributes,
      classLayout := ClassLayout(0, 0),
      enclosingType := None,
      genericParams := [],
      base := if base.Some? then Some(BoundType(base.value, [])) else None,
      baseInterfaces := [],
      methods := [],
      fields := [],
      properties := [],
      events := [],
      nestedTypes := [])
  }

  /** A mock type is named "System." followed by its name, has no generic
      parameters in scope, and answers no member lookup of its own. */
  lemma MockTypeIsPlainSystemType(arena: seq<TypeImpl>, id: TypeId, kind: TypeDefinitionKind, name: string,
    base: Option<TypeId>, attributes: TypeAttributes, c: MemberCollection, q: Query)
    requires WfArena(arena) && id < |arena|
    requires arena[id] == MockSystemTypeImpl(kind, name, base, attributes)
    ensures FullName(arena, id) == SYSTEM_NAMESPACE + "." + name
    ensures OuterFirstParams(arena, id) == []
    ensures FindMember(arena, id, c, q, false).None?
    ensures base.None? ==> FindMember(arena, id, c, q, true).None?
  {
    assert MembersOf(arena[id], c) == [];
  }

  /** With a base class, an inherited lookup on a mock type is the lookup on
      that base class. */
  lemma MockTypeInheritsFromBase(arena: seq<TypeImpl>, id: TypeId, kind: TypeDefinitionKind, name: string,
    base: TypeId, attributes: TypeAttributes, c: MemberCollection, q: Query)
    requires WfArena(arena) && id < |arena|
    requires arena[id] == MockSystemTypeImpl(kind, name, Some(base), attributes)
    ensures FindMember(arena, id, c, q, true) == FindMember(arena, base, c, q, true)
  {
    assert MembersOf(arena[id], c) == [];
  }
}
