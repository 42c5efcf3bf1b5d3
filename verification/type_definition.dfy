/** The logical view of a type definition: its subclass by kind, names,
    generic-parameter context, layout and member lookup. Type definitions
    live in an arena and refer to each other (enclosing type, base type) by
    their index in it. */
module TypeDefinitions {
  import opened Wrappers
  import opened TypeMetadata

  type TypeId = nat

  const NESTED_TYPE_SEPARATOR: char := '/'
  const GENERIC_PARAM_COUNT_SEPARATOR: char := '`'
  const NAMESPACE_SEPARATOR: char := '.'

  /** Member access, section II.23.1.10 of ECMA-335. */
  datatype Visibility = CompilerControlled | Private | FamilyAndAssembly | Assembly | Family | FamilyOrAssembly | Public

  datatype LayoutKind = Auto | Sequential | Explicit

  /** The TypeAttributes of a TypeDef row: its layout kind, other flags raw. */
  datatype TypeAttributes = TypeAttributes(layoutKind: LayoutKind, otherFlags: nat)

  /** The ClassLayout row data: packing size and class size. */
  datatype ClassLayout = ClassLayout(pack: nat, size: nat)

  datatype TypeLayout =
    | AutoLayout
    | SequentialLayout(pack: Option<nat>, minSize: nat)
    | ExplicitLayout(minSize: nat)

  /** A type definition bound to generic arguments (type ids). */
  datatype BoundType = BoundType(definition: TypeId, genericArgs: seq<TypeId>)

  /** What member lookup inspects of a method, field, property or event.
      `params` holds the parameter types, or none when resolving them
      throws; fields, properties and events have no generic arity. */
  datatype Member = Member(
    name: string,
    visibility: Visibility,
    isStatic: bool,
    genericArity: nat,
    params: Option<seq<TypeId>>)

  /** The data behind a type definition, whichever implementation gives it. */
  datatype TypeImpl = TypeImpl(
    kind: TypeDefinitionKind,
    name: string,
    namespace: Option<string>,
    attributes: TypeAttributes,
    classLayout: ClassLayout,
    enclosingType: Option<TypeId>,
    genericParams: seq<string>,
    base: Option<BoundType>,
    baseInterfaces: seq<BoundType>,
    methods: seq<Member>,
    fields: seq<Member>,
    properties: seq<Member>,
    events: seq<Member>,
    nestedTypes: seq<TypeId>)

  /** Enclosing and base types come before the types that refer to them, so
      the walks up either chain end. */
  predicate WfArena(arena: seq<TypeImpl>) {
    forall id :: 0 <= id < |arena| ==>
      && (arena[id].enclosingType.Some? ==> arena[id].enclosingType.value < id)
      && (arena[id].base.Some? ==> arena[id].base.value.definition < id)
  }

  /** The subclass `create` instantiates. */
  datatype TypeDefinitionClass = ClassDefinition | InterfaceDefinition | DelegateDefinition | StructDefinition | EnumDefinition

  function KindOfClass(c: TypeDefinitionClass): TypeDefinitionKind {
    match c
    case ClassDefinition => Class
    case InterfaceDefinition => Interface
    case DelegateDefinition => Delegate
    case StructDefinition => Struct
    case EnumDefinition => Enum
  }

  /** `create`: the subclass matching the implementation's kind. */
  function Create(kind: TypeDefinitionKind): (r: TypeDefinitionClass)
    ensures KindOfClass(r) == kind
  {
    match kind
    case Class => ClassDefinition
    case Interface => InterfaceDefinition
    case Delegate => DelegateDefinition
    case Struct => StructDefinition
    case Enum => EnumDefinition
  }

  /** Every subclass is created for exactly one kind. */
  lemma CreateIsBijective(c: TypeDefinitionClass, k1: TypeDefinitionKind, k2: TypeDefinitionKind)
    ensures Create(KindOfClass(c)) == c
    ensures Create(k1) == Create(k2) ==> k1 == k2
  {
  }

  /** `nameWithoutGenericSuffix`: the name up to its first backtick. */
  function NameWithoutGenericSuffix(name: string): (r: string)
    ensures r <= name
    ensures GENERIC_PARAM_COUNT_SEPARATOR !in r
    ensures |r| < |name| ==> name[|r|] == GENERIC_PARAM_COUNT_SEPARATOR
  {
    if |name| == 0 || name[0] == GENERIC_PARAM_COUNT_SEPARATOR then ""
    else [name[0]] + NameWithoutGenericSuffix(name[1..])
  }

  /** A generic type's name is its plain name, a backtick and the parameter
      count; stripping the suffix gives back the plain name. */
  lemma {:induction false} GenericSuffixStripped(plain: string, count: string)
    requires GENERIC_PARAM_COUNT_SEPARATOR !in plain
    ensures NameWithoutGenericSuffix(plain + [GENERIC_PARAM_COUNT_SEPARATOR] + count) == plain
  {
    var full := plain + [GENERIC_PARAM_COUNT_SEPARATOR] + count;
    var r := NameWithoutGenericSuffix(full);
    assert full[|plain|] == GENERIC_PARAM_COUNT_SEPARATOR;
    assert forall k :: 0 <= k < |plain| ==> full[k] == plain[k];
    assert r == full[..|r|];
  }

  /** `makeFullTypeName(namespace:name:)`. */
  function MakeFullTypeName(namespace: Option<string>, name: string): (r: string)
    ensures namespace.None? ==> r == name
    ensures namespace.Some? ==> r == namespace.value + [NAMESPACE_SEPARATOR] + name
  {
    match namespace
    case None => name
    case Some(ns) => ns + [NAMESPACE_SEPARATOR] + name
  }

  /** The position of the last occurrence of `c` in `s`. */
  function LastIndexOf(s: string, c: char): (r: Option<nat>)
    ensures r.None? <==> c !in s
    ensures r.Some? ==> r.value < |s| && s[r.value] == c
    ensures r.Some? ==> forall k :: r.value < k < |s| ==> s[k] != c
  {
    if |s| == 0 then None
    else if s[|s| - 1] == c then Some(|s| - 1)
    else
      assert forall i :: 0 <= i < |s| - 1 ==> s[..|s| - 1][i] == s[i];
      LastIndexOf(s[..|s| - 1], c)
  }

  /** The inverse of `MakeFullTypeName`: the namespace is everything before
      the last dot. */
  function SplitFullTypeName(fullName: string): (r: (Option<string>, string))
    ensures NAMESPACE_SEPARATOR !in r.1
  {
    match LastIndexOf(fullName, NAMESPACE_SEPARATOR)
    case None => (None, fullName)
    case Some(i) => (Some(fullName[..i]), fullName[i + 1..])
  }

  /** A dotless name and its namespace are recovered from the full name. */
  lemma FullTypeNameRoundTrip(namespace: Option<string>, name: string)
    requires NAMESPACE_SEPARATOR !in name
    ensures SplitFullTypeName(MakeFullTypeName(namespace, name)) == (namespace, name)
  {
    var full := MakeFullTypeName(namespace, name);
    if namespace.Some? {
      var ns := namespace.value;
      var i := |ns|;
      assert full[i] == NAMESPACE_SEPARATOR;
      assert forall k :: i < k < |full| ==> full[k] == name[k - i - 1];
      assert full[i + 1..] == name;
      assert full[..i] == ns;
    }
  }

  /** `"/" + n` for each nested name, in order. */
  function NestedSuffix(nestedNames: seq<string>): (r: string)
    ensures |nestedNames| == 0 ==> r == ""
  {
    if |nestedNames| == 0 then ""
    else NestedSuffix(nestedNames[..|nestedNames| - 1]) + [NESTED_TYPE_SEPARATOR] + nestedNames[|nestedNames| - 1]
  }

  lemma ConcatAssoc(a: string, b: string, sep: string, c: string)
    ensures a + b + sep + c == a + (b + sep + c)
  {
  }

  /** `makeFullTypeName(namespace:enclosingName:nestedNames:)`, its loop
      appending one separator and nested name per step. */
  method MakeNestedFullTypeName(namespace: Option<string>, enclosingName: string, nestedNames: seq<string>)
    returns (result: string)
    ensures result == MakeFullTypeName(namespace, enclosingName) + NestedSuffix(nestedNames)
  {
    if namespace.Some? {
      result := namespace.value + [NAMESPACE_SEPARATOR] + enclosingName;
    } else {
      result := enclosingName;
    }
    var i := 0;
    while i < |nestedNames|
      invariant 0 <= i <= |nestedNames|
      invariant result == MakeFullTypeName(namespace, enclosingName) + NestedSuffix(nestedNames[..i])
    {
      assert nestedNames[..i + 1][..i] == nestedNames[..i];
      ConcatAssoc(MakeFullTypeName(namespace, enclosingName), NestedSuffix(nestedNames[..i]), [NESTED_TYPE_SEPARATOR], nestedNames[i]);
      result := result + [NESTED_TYPE_SEPARATOR] + nestedNames[i];
      i := i + 1;
    }
    assert nestedNames[..i] == nestedNames;
  }

  /** `fullName`: the enclosing type's full name, a slash and the name for a
      nested type; otherwise the namespace-qualified name. */
  function FullName(arena: seq<TypeImpl>, id: TypeId): (r: string)
    requires WfArena(arena) && id < |arena|
    ensures |arena[id].name| <= |r| && r[|r| - |arena[id].name|..] == arena[id].name
    decreases id
  {
    var t := arena[id];
    match t.enclosingType
    case Some(e) => FullName(arena, e) + [NESTED_TYPE_SEPARATOR] + t.name
    case None => MakeFullTypeName(t.namespace, t.name)
  }

  /** The type itself and its enclosing types, outermost first. */
  function EnclosingChain(arena: seq<TypeImpl>, id: TypeId): (r: seq<TypeId>)
    requires WfArena(arena) && id < |arena|
    ensures |r| > 0 && r[|r| - 1] == id
    ensures forall k :: 0 <= k < |r| ==> r[k] < |arena|
    ensures arena[r[0]].enclosingType.None?
    decreases id
  {
    match arena[id].enclosingType
    case Some(e) => EnclosingChain(arena, e) + [id]
    case None => [id]
  }

  function NamesOf(arena: seq<TypeImpl>, ids: seq<TypeId>): (r: seq<string>)
    requires forall k :: 0 <= k < |ids| ==> ids[k] < |arena|
    ensures |r| == |ids| && forall k :: 0 <= k < |ids| ==> r[k] == arena[ids[k]].name
  {
    seq(|ids|, k requires 0 <= k < |ids| => arena[ids[k]].name)
  }

  /** The two ways of naming a nested type agree: a type's full name is the
      nested-name overload applied to its outermost enclosing type and the
      names of the types nested inside it, down to the type itself. */
  lemma {:induction false} FullNameIsNestedFullTypeName(arena: seq<TypeImpl>, id: TypeId)
    requires WfArena(arena) && id < |arena|
    ensures var chain := EnclosingChain(arena, id);
      FullName(arena, id) == MakeFullTypeName(arena[chain[0]].namespace, arena[chain[0]].name) + NestedSuffix(NamesOf(arena, chain[1..]))
    decreases id
  {
    var chain := EnclosingChain(arena, id);
    match arena[id].enclosingType
    case None =>
      assert chain == [id];
      assert NamesOf(arena, chain[1..]) == [];
    case Some(e) =>
      FullNameIsNestedFullTypeName(arena, e);
      var outer := EnclosingChain(arena, e);
      assert chain == outer + [id];
      assert chain[0] == outer[0];
      var names := NamesOf(arena, chain[1..]);
      assert |names| > 0;
      assert names[..|names| - 1] == NamesOf(arena, outer[1..]);
      assert names[|names| - 1] == arena[id].name;
      ConcatAssoc(MakeFullTypeName(arena[chain[0]].namespace, arena[chain[0]].name),
        NestedSuffix(NamesOf(arena, outer[1..])), [NESTED_TYPE_SEPARATOR], arena[id].name);
  }

  /** The generic parameters in scope, outermost enclosing type first. */
  function OuterFirstParams(arena: seq<TypeImpl>, id: TypeId): (r: seq<string>)
    requires WfArena(arena) && id < |arena|
    decreases id
  {
    match arena[id].enclosingType
    case Some(e) => OuterFirstParams(arena, e) + arena[id].genericParams
    case None => arena[id].genericParams
  }

  /** The parameters of the enclosing types only. */
  function InheritedParams(arena: seq<TypeImpl>, id: TypeId): seq<string>
    requires WfArena(arena) && id < |arena|
  {
    match arena[id].enclosingType
    case Some(e) => OuterFirstParams(arena, e)
    case None => []
  }

  /** `fullGenericParams`, as the source computes it: start from the type's
      own parameters and, walking outwards, insert each enclosing type's
      parameters at the front. */
  method FullGenericParams(arena: seq<TypeImpl>, id: TypeId) returns (result: seq<string>)
    requires WfArena(arena) && id < |arena|
    ensures result == OuterFirstParams(arena, id)
  {
    result := arena[id].genericParams;
    var current := id;
    while arena[current].enclosingType.Some?
      invariant current < |arena|
      invariant OuterFirstParams(arena, id) == InheritedParams(arena, current) + result
      decreases current
    {
      var enclosing := arena[current].enclosingType.value;
      result := arena[enclosing].genericParams + result;
      current := enclosing;
    }
  }

  function ConcatParams(arena: seq<TypeImpl>, ids: seq<TypeId>): seq<string>
    requires forall k :: 0 <= k < |ids| ==> ids[k] < |arena|
  {
    if |ids| == 0 then []
    else ConcatParams(arena, ids[..|ids| - 1]) + arena[ids[|ids| - 1]].genericParams
  }

  /** The parameter context is the concatenation of the generic parameters
      along the enclosing chain, outermost first, the type's own last. */
  lemma {:induction false} OuterFirstParamsFollowChain(arena: seq<TypeImpl>, id: TypeId)
    requires WfArena(arena) && id < |arena|
    ensures OuterFirstParams(arena, id) == ConcatParams(arena, EnclosingChain(arena, id))
    ensures arena[id].genericParams <= OuterFirstParams(arena, id)[|OuterFirstParams(arena, id)| - |arena[id].genericParams|..]
    decreases id
  {
    var chain := EnclosingChain(arena, id);
    match arena[id].enclosingType
    case None =>
      assert chain == [id];
      assert chain[..0] == [];
    case Some(e) =>
      OuterFirstParamsFollowChain(arena, e);
      assert chain[..|chain| - 1] == EnclosingChain(arena, e);
  }

  /** `layout`: the class layout's pack (none when zero) and size for
      sequential layout, its size for explicit layout. */
  function Layout(t: TypeImpl): (r: TypeLayout)
    ensures r.AutoLayout? <==> t.attributes.layoutKind == Auto
    ensures r.SequentialLayout? <==> t.attributes.layoutKind == Sequential
    ensures r.SequentialLayout? ==> (r.pack.None? <==> t.classLayout.pack == 0)
    ensures !r.AutoLayout? ==> r.minSize == t.classLayout.size
  {
    match t.attributes.layoutKind
    case Auto => AutoLayout
    case Sequential =>
      SequentialLayout(if t.classLayout.pack == 0 then None else Some(t.classLayout.pack), t.classLayout.size)
    case Explicit => ExplicitLayout(t.classLayout.size)
  }

  /** A sequential layout keeps the class layout row whole: a missing pack is
      a zero pack. */
  lemma SequentialLayoutKeepsClassLayout(t: TypeImpl)
    requires t.attributes.layoutKind == Sequential
    ensures ClassLayout(Layout(t).pack.GetOr(0), Layout(t).minSize) == t.classLayout
  {
  }

  datatype MemberCollection = Methods | Fields | Properties | Events

  function MembersOf(t: TypeImpl, c: MemberCollection): seq<Member> {
    match c
    case Methods => t.methods
    case Fields => t.fields
    case Properties => t.properties
    case Events => t.events
  }

  /** The filters of a member lookup; an absent filter accepts anything. The
      last three are `findMethod`'s predicate. */
  datatype Query = Query(
    name: string,
    isPublic: Option<bool>,
    isStatic: Option<bool>,
    genericArity: Option<nat>,
    arity: Option<nat>,
    paramTypes: Option<seq<TypeId>>)

  predicate Matches(m: Member, q: Query) {
    && m.name == q.name
    && (q.isPublic.Some? ==> (m.visibility == Public) == q.isPublic.value)
    && (q.isStatic.Some? ==> m.isStatic == q.isStatic.value)
    && (q.genericArity.Some? ==> m.genericArity == q.genericArity.value)
    && (q.arity.Some? ==> m.params.Some? && |m.params.value| == q.arity.value)
    && (q.paramTypes.Some? ==> m.params == q.paramTypes)
  }

  /** The first member at or after `start` that matches. */
  function FirstMatchFrom(ms: seq<Member>, q: Query, start: nat): (r: Option<nat>)
    ensures r.None? <==> forall j :: start <= j < |ms| ==> !Matches(ms[j], q)
    ensures r.Some? ==> start <= r.value < |ms| && Matches(ms[r.value], q)
    ensures r.Some? ==> forall j :: start <= j < r.value ==> !Matches(ms[j], q)
    decreases |ms| - start
  {
    if start >= |ms| then None
    else if Matches(ms[start], q) then Some(start)
    else FirstMatchFrom(ms, q, start + 1)
  }

  /** `single(where:)`: the one matching member, none when no member or more
      than one matches. */
  function Single(ms: seq<Member>, q: Query): (r: Option<nat>)
    ensures r.Some? ==> r.value < |ms| && Matches(ms[r.value], q)
    ensures r.Some? ==> forall j :: 0 <= j < |ms| && j != r.value ==> !Matches(ms[j], q)
    ensures r.None? ==> forall i :: 0 <= i < |ms| && Matches(ms[i], q) ==>
      exists j :: 0 <= j < |ms| && j != i && Matches(ms[j], q)
  {
    match FirstMatchFrom(ms, q, 0)
    case None => None
    case Some(i) =>
      var next := FirstMatchFrom(ms, q, i + 1);
      if next.None? then Some(i)
      else
        assert forall k :: 0 <= k < |ms| && Matches(ms[k], q) ==> k == i || k == next.value || Matches(ms[next.value], q);
        None
  }

  /** A found member: the type whose collection holds it, and its position. */
  datatype MemberRef = MemberRef(owner: TypeId, index: nat)

  /** `findMember`: the single match in the type's collection; failing that,
      and only when asked to, the same lookup in the base type's definition. */
  function FindMember(arena: seq<TypeImpl>, id: TypeId, c: MemberCollection, q: Query, inherited: bool): (r: Option<MemberRef>)
    requires WfArena(arena) && id < |arena|
    ensures r.Some? ==> r.value.owner <= id && r.value.index < |MembersOf(arena[r.value.owner], c)|
    ensures r.Some? ==> Matches(MembersOf(arena[r.value.owner], c)[r.value.index], q)
    ensures r.Some? ==> Single(MembersOf(arena[r.value.owner], c), q) == Some(r.value.index)
    ensures Single(MembersOf(arena[id], c), q).Some? ==> r == Some(MemberRef(id, Single(MembersOf(arena[id], c), q).value))
    ensures r.Some? && r.value.owner != id ==> inherited && arena[id].base.Some?
    ensures !inherited || arena[id].base.None? ==> (r.Some? <==> Single(MembersOf(arena[id], c), q).Some?)
    decreases id
  {
    match Single(MembersOf(arena[id], c), q)
    case Some(i) => Some(MemberRef(id, i))
    case None =>
      if inherited && arena[id].base.Some? then FindMember(arena, arena[id].base.value.definition, c, q, inherited)
      else None
  }

  /** An inherited lookup that the type itself does not answer is the same
      lookup on its base definition. */
  lemma InheritedLookupDefersToBase(arena: seq<TypeImpl>, id: TypeId, c: MemberCollection, q: Query)
    requires WfArena(arena) && id < |arena|
    requires Single(MembersOf(arena[id], c), q).None? && arena[id].base.Some?
    ensures FindMember(arena, id, c, q, true) == FindMember(arena, arena[id].base.value.definition, c, q, true)
  {
  }

  /** `findMethod`. */
  function FindMethod(
    arena: seq<TypeImpl>, id: TypeId, name: string, isPublic: Option<bool>, isStatic: Option<bool>,
    genericArity: Option<nat>, arity: Option<nat>, paramTypes: Option<seq<TypeId>>, inherited: bool): (r: Option<MemberRef>)
    requires WfArena(arena) && id < |arena|
    ensures r.Some? ==> r.value.owner < |arena| && r.value.index < |arena[r.value.owner].methods|
    ensures r.Some? ==> Matches(arena[r.value.owner].methods[r.value.index], Query(name, isPublic, isStatic, genericArity, arity, paramTypes))
    ensures r.Some? && !inherited ==> r.value.owner == id
  {
    FindMember(arena, id, Methods, Query(name, isPublic, isStatic, genericArity, arity, paramTypes), inherited)
  }

  /** `findField`, `findProperty` and `findEvent`: no predicate. */
  function FindPlainMember(arena: seq<TypeImpl>, id: TypeId, c: MemberCollection, name: string,
    isPublic: Option<bool>, isStatic: Option<bool>, inherited: bool): (r: Option<MemberRef>)
    requires WfArena(arena) && id < |arena|
    requires c != Methods
    ensures r.Some? ==> r.value.owner < |arena| && r.value.index < |MembersOf(arena[r.value.owner], c)|
    ensures r.Some? ==> var m := MembersOf(arena[r.value.owner], c)[r.value.index];
      m.name == name && (isPublic.Some? ==> (m.visibility == Public) == isPublic.value)
      && (isStatic.Some? ==> m.isStatic == isStatic.value)
    ensures r.Some? && !inherited ==> r.value.owner == id
  {
    FindMember(arena, id, c, Query(name, isPublic, isStatic, None, None, None), inherited)
  }

  /** `ClassDefinition.finalizer`: the instance method `Finalize` of arity 0. */
  function Finalizer(arena: seq<TypeImpl>, id: TypeId): (r: Option<MemberRef>)
    requires WfArena(arena) && id < |arena|
    ensures r.Some? ==> r.value.owner == id && r.value.index < |arena[id].methods|
    ensures r.None? <==> Single(arena[id].methods, Query("Finalize", None, Some(false), None, Some(0), None)).None?
    ensures r.Some? ==> arena[id].methods[r.value.index].name == "Finalize" && !arena[id].methods[r.value.index].isStatic
    ensures r.Some? ==> arena[id].methods[r.value.index].params == Some([])
  {
    FindMethod(arena, id, "Finalize", None, Some(false), None, Some(0), None, false)
  }

  /** `DelegateDefinition.invokeMethod`: the public instance `Invoke`
      method, force-unwrapped. */
  function InvokeMethod(arena: seq<TypeImpl>, id: TypeId): (r: Outcome<MemberRef>)
    requires WfArena(arena) && id < |arena|
    ensures !r.Thrown?
    ensures r.Fatal? <==> Single(arena[id].methods, Query("Invoke", Some(true), Some(false), None, None, None)).None?
    ensures r.Success? ==> r.value.owner == id && r.value.index < |arena[id].methods|
    ensures r.Success? ==> arena[id].methods[r.value.index].visibility == Public
  {
    match FindMethod(arena, id, "Invoke", Some(true), Some(false), None, None, None, false)
    case Some(m) => Success(m)
    case None => Fatal
  }

  /** `EnumDefinition.backingField`: the public instance field `value__`,
      force-unwrapped. */
  function BackingField(arena: seq<TypeImpl>, id: TypeId): (r: Outcome<MemberRef>)
    requires WfArena(arena) && id < |arena|
    ensures !r.Thrown?
    ensures r.Fatal? <==> Single(arena[id].fields, Query("value__", Some(true), Some(false), None, None, None)).None?
    ensures r.Success? ==> r.value.owner == id && r.value.index < |arena[id].fields|
    ensures r.Success? ==> arena[id].fields[r.value.index].name == "value__"
  {
    match FindPlainMember(arena, id, Fields, "value__", Some(true), Some(false), false)
    case Some(f) => Success(f)
    case None => Fatal
  }
}
