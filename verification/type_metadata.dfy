/** The type definition of a loaded module, derived from its TypeDef row and
    the tables that refer to that row: name, namespace, enclosing type, base
    interfaces, member row ranges and accessor runs. */
module TypeMetadata {
  import opened Wrappers
  import opened Tokens
  import opened Tables

  datatype TypeDefinitionKind = Class | Interface | Delegate | Struct | Enum

  // Table tags, section II.22 of ECMA-335.
  const TYPEDEF_TABLE: TableIndex := 0x02
  const EVENT_TABLE: TableIndex := 0x14
  const PROPERTY_TABLE: TableIndex := 0x17

  /** A TypeDef row; the heap columns are string-heap indices, the list
      columns the zero-based first child row. */
  datatype TypeDefRow = TypeDefRow(
    flags: nat,
    typeName: nat,
    typeNamespace: nat,
    extendsIndex: nat,
    fieldList: nat,
    methodList: nat)

  /** A NestedClass row: keyed by the nested type, naming its enclosing
      TypeDef row, which may be null. */
  datatype NestedClassRow = NestedClassRow(key: nat, enclosingClass: Option<nat>)

  /** An InterfaceImpl row, keyed by the implementing class. */
  datatype InterfaceImplRow = InterfaceImplRow(key: nat, implemented: nat)

  /** A PropertyMap or EventMap row: the owning TypeDef row and the first
      member row. */
  datatype MapRow = MapRow(parent: nat, list: nat)

  /** A MethodSemantics row, keyed by its Property or Event association. */
  datatype SemanticsRow = SemanticsRow(key: nat, semantics: nat, methodRow: nat)

  /** What the type-definition logic reads from the metadata database. The
      string heap, the primary-key encoding of a token and the physical
      layer's kind classification are given as functions. */
  datatype Database = Database(
    typeDef: seq<TypeDefRow>,
    methodDefCount: nat,
    fieldCount: nat,
    nestedClass: seq<NestedClassRow>,
    interfaceImpl: seq<InterfaceImplRow>,
    propertyMap: seq<MapRow>,
    propertyCount: nat,
    eventMap: seq<MapRow>,
    eventCount: nat,
    methodSemantics: seq<SemanticsRow>,
    strings: nat -> string,
    tableKey: MetadataToken -> nat,
    kindOf: (TypeDefRow, bool) -> TypeDefinitionKind)

  /** A TypeDef row index that exists and fits a token. */
  predicate ValidTypeDef(db: Database, t: nat) {
    t < |db.typeDef| && t + 1 < RowSpan
  }

  const MSCORLIB_NAME: string := "mscorlib"

  /** `MetadataToken(tableRowIndex).tableKey` for a TypeDef row. */
  function TypeDefKey(db: Database, t: nat): nat
    requires t + 1 < RowSpan
  {
    db.tableKey(MakeToken(TYPEDEF_TABLE, t + 1))
  }

  /** `kind`: classified by the physical layer from the raw row, told only
      whether the owning assembly is named "mscorlib". */
  function Kind(db: Database, t: nat, assemblyName: string): (r: TypeDefinitionKind)
    requires ValidTypeDef(db, t)
    ensures assemblyName == MSCORLIB_NAME ==> r == db.kindOf(db.typeDef[t], true)
    ensures assemblyName != MSCORLIB_NAME ==> r == db.kindOf(db.typeDef[t], false)
  {
    db.kindOf(db.typeDef[t], assemblyName == MSCORLIB_NAME)
  }

  /** Two type definitions with the same raw row, read in assemblies that
      agree on being mscorlib, have the same kind whatever else their
      databases hold. */
  lemma KindDependsOnRowOnly(db1: Database, t1: nat, name1: string, db2: Database, t2: nat, name2: string)
    requires ValidTypeDef(db1, t1) && ValidTypeDef(db2, t2)
    requires db1.kindOf == db2.kindOf && db1.typeDef[t1] == db2.typeDef[t2]
    requires (name1 == MSCORLIB_NAME) == (name2 == MSCORLIB_NAME)
    ensures Kind(db1, t1, name1) == Kind(db2, t2, name2)
  {
  }

  /** `name`: the string-heap entry of the row's TypeName column. Unlike
      the namespace, an empty name is kept as it is. */
  function Name(db: Database, t: nat): (r: string)
    requires ValidTypeDef(db, t)
    ensures r == db.strings(db.typeDef[t].typeName)
  {
    db.strings(db.typeDef[t].typeName)
  }

  /** The name of a type definition is read from its own row and the string
      heap alone. */
  lemma NameDependsOnRowOnly(db1: Database, t1: nat, db2: Database, t2: nat)
    requires ValidTypeDef(db1, t1) && ValidTypeDef(db2, t2)
    requires db1.strings == db2.strings && db1.typeDef[t1].typeName == db2.typeDef[t2].typeName
    ensures Name(db1, t1) == Name(db2, t2)
  {
  }

  /** `namespace`: none for a zero string-heap index or an empty string. */
  function Namespace(db: Database, t: nat): (r: Option<string>)
    requires ValidTypeDef(db, t)
    ensures r.None? <==> db.typeDef[t].typeNamespace == 0 || db.strings(db.typeDef[t].typeNamespace) == ""
    ensures r.Some? ==> r.value == db.strings(db.typeDef[t].typeNamespace) && r.value != ""
  {
    var index := db.typeDef[t].typeNamespace;
    if index == 0 then None
    else
      var value := db.strings(index);
      if value == "" then None else Some(value)
  }

  /** `enclosingType`, as a TypeDef row: the enclosing class of the first
      NestedClass row keyed by this type. */
  function EnclosingType(db: Database, t: nat): (r: Option<nat>)
    requires ValidTypeDef(db, t)
    ensures (forall i :: 0 <= i < |db.nestedClass| ==> db.nestedClass[i].key != TypeDefKey(db, t)) ==> r.None?
    ensures r.Some? ==>
      exists i :: 0 <= i < |db.nestedClass| && db.nestedClass[i].key == TypeDefKey(db, t) && db.nestedClass[i].enclosingClass == r
    ensures forall i :: 0 <= i < |db.nestedClass| && db.nestedClass[i].key == TypeDefKey(db, t) ==>
      (forall j :: 0 <= j < i ==> db.nestedClass[j].key != TypeDefKey(db, t)) ==>
      r == db.nestedClass[i].enclosingClass
  {
    var keys := Column(db.nestedClass, (row: NestedClassRow) => row.key);
    match FindFirst(keys, TypeDefKey(db, t))
    case None => None
    case Some(i) => db.nestedClass[i].enclosingClass
  }

  /** `baseInterfaces`, as InterfaceImpl rows. */
  function BaseInterfaces(db: Database, t: nat): (r: seq<nat>)
    requires ValidTypeDef(db, t)
    ensures forall k :: 0 <= k < |r| ==> r[k] < |db.interfaceImpl| && db.interfaceImpl[r[k]].key == TypeDefKey(db, t)
  {
    KeyRun(Column(db.interfaceImpl, (row: InterfaceImplRow) => row.key), TypeDefKey(db, t))
  }

  /** When the InterfaceImpl table is sorted by class, as section II.22.23 of
      ECMA-335 requires, `baseInterfaces` lists every row of this type and
      no other, in row order. */
  lemma BaseInterfacesAreAllImplRows(db: Database, t: nat)
    requires ValidTypeDef(db, t)
    requires Sorted(Column(db.interfaceImpl, (row: InterfaceImplRow) => row.key))
    ensures forall i :: 0 <= i < |db.interfaceImpl| ==>
      (db.interfaceImpl[i].key == TypeDefKey(db, t) <==> i in BaseInterfaces(db, t))
    ensures forall k :: 0 < k < |BaseInterfaces(db, t)| ==> BaseInterfaces(db, t)[k - 1] < BaseInterfaces(db, t)[k]
  {
    KeyRunIsAllRowsWithKey(Column(db.interfaceImpl, (row: InterfaceImplRow) => row.key), TypeDefKey(db, t));
  }

  /** `methods`, as MethodDef rows: the child range of the TypeDef row. */
  function Methods(db: Database, t: nat): (r: seq<nat>)
    requires ValidTypeDef(db, t)
    ensures forall k :: 0 <= k < |r| ==> r[k] < db.methodDefCount
    ensures forall k :: 0 < k < |r| ==> r[k] == r[k - 1] + 1
  {
    ChildRange(Column(db.typeDef, (row: TypeDefRow) => row.methodList), t, db.methodDefCount)
  }

  /** `fields`, as Field rows: the child range of the TypeDef row. */
  function Fields(db: Database, t: nat): (r: seq<nat>)
    requires ValidTypeDef(db, t)
    ensures forall k :: 0 <= k < |r| ==> r[k] < db.fieldCount
    ensures forall k :: 0 < k < |r| ==> r[k] == r[k - 1] + 1
  {
    ChildRange(Column(db.typeDef, (row: TypeDefRow) => row.fieldList), t, db.fieldCount)
  }

  /** With method lists in ascending order, `methods` runs from the type's
      MethodList entry to the next type's entry, or to the table end. */
  lemma MethodsFollowTypeDefRow(db: Database, t: nat)
    requires ValidTypeDef(db, t)
    requires Sorted(Column(db.typeDef, (row: TypeDefRow) => row.methodList))
    ensures var lists := Column(db.typeDef, (row: TypeDefRow) => row.methodList);
      ListStart(lists, t, db.methodDefCount) <= ListEnd(lists, t, db.methodDefCount)
      && Methods(db, t) == Range(ListStart(lists, t, db.methodDefCount), ListEnd(lists, t, db.methodDefCount))
  {
    ChildRangeIsRange(Column(db.typeDef, (row: TypeDefRow) => row.methodList), t, db.methodDefCount);
  }

  /** With field lists in ascending order, `fields` runs from the type's
      FieldList entry to the next type's entry, or to the table end. */
  lemma FieldsFollowTypeDefRow(db: Database, t: nat)
    requires ValidTypeDef(db, t)
    requires Sorted(Column(db.typeDef, (row: TypeDefRow) => row.fieldList))
    ensures var lists := Column(db.typeDef, (row: TypeDefRow) => row.fieldList);
      ListStart(lists, t, db.fieldCount) <= ListEnd(lists, t, db.fieldCount)
      && Fields(db, t) == Range(ListStart(lists, t, db.fieldCount), ListEnd(lists, t, db.fieldCount))
  {
    ChildRangeIsRange(Column(db.typeDef, (row: TypeDefRow) => row.fieldList), t, db.fieldCount);
  }

  /** With method lists in ascending order, two type definitions own
      disjoint method rows. */
  lemma MethodsDisjoint(db: Database, t1: nat, t2: nat)
    requires ValidTypeDef(db, t1) && ValidTypeDef(db, t2) && t1 != t2
    requires Sorted(Column(db.typeDef, (row: TypeDefRow) => row.methodList))
    ensures forall m :: m in Methods(db, t1) ==> m !in Methods(db, t2)
  {
    var lists := Column(db.typeDef, (row: TypeDefRow) => row.methodList);
    if t1 < t2 {
      ChildRangesDisjoint(lists, t1, t2, db.methodDefCount);
    } else {
      ChildRangesDisjoint(lists, t2, t1, db.methodDefCount);
    }
  }

  /** Members reached through a map table (PropertyMap, EventMap): none
      without a map row for the type, otherwise that row's child range. */
  function MappedMembers(maps: seq<MapRow>, childCount: nat, t: nat): (r: seq<nat>)
    ensures (forall i :: 0 <= i < |maps| ==> maps[i].parent != t) ==> r == []
    ensures forall k :: 0 <= k < |r| ==> r[k] < childCount
    ensures forall k :: 0 < k < |r| ==> r[k] == r[k - 1] + 1
  {
    match FindFirst(Column(maps, (row: MapRow) => row.parent), t)
    case None => []
    case Some(m) => ChildRange(Column(maps, (row: MapRow) => row.list), m, childCount)
  }

  /** `properties`, as Property rows. */
  function Properties(db: Database, t: nat): (r: seq<nat>)
    requires ValidTypeDef(db, t)
    ensures (forall i :: 0 <= i < |db.propertyMap| ==> db.propertyMap[i].parent != t) ==> r == []
    ensures forall k :: 0 <= k < |r| ==> r[k] < db.propertyCount
  {
    MappedMembers(db.propertyMap, db.propertyCount, t)
  }

  /** `events`, as Event rows. */
  function Events(db: Database, t: nat): (r: seq<nat>)
    requires ValidTypeDef(db, t)
    ensures (forall i :: 0 <= i < |db.eventMap| ==> db.eventMap[i].parent != t) ==> r == []
    ensures forall k :: 0 <= k < |r| ==> r[k] < db.eventCount
  {
    MappedMembers(db.eventMap, db.eventCount, t)
  }

  /** A map row for the type yields exactly the rows from its list entry to
      the next map row's list entry (or the table end). */
  lemma MappedMembersFollowMapRow(maps: seq<MapRow>, childCount: nat, t: nat, m: nat)
    requires m < |maps| && maps[m].parent == t
    requires forall i :: 0 <= i < m ==> maps[i].parent != t
    requires Sorted(Column(maps, (row: MapRow) => row.list))
    requires maps[m].list <= childCount
    ensures m + 1 == |maps| ==> MappedMembers(maps, childCount, t) == Range(maps[m].list, childCount)
    ensures m + 1 < |maps| && maps[m + 1].list <= childCount ==>
      MappedMembers(maps, childCount, t) == Range(maps[m].list, maps[m + 1].list)
  {
    var parents := Column(maps, (row: MapRow) => row.parent);
    assert FindFirst(parents, t) == Some(m);
    var lists := Column(maps, (row: MapRow) => row.list);
    var r := MappedMembers(maps, childCount, t);
    assert r == ChildRange(lists, m, childCount);
    if m + 1 < |maps| {
      assert lists[m] <= lists[m + 1];
    }
  }

  /** One `getAccessors` entry: the MethodDef row and its semantics flags. */
  datatype AccessorEntry = AccessorEntry(methodRow: nat, semantics: nat)

  /** The accessor entries of the given semantics rows, in order; an entry
      whose method is not among the type's methods traps, as the
      force-unwrapped search for it does. */
  function EntriesOf(db: Database, rows: seq<nat>, methods: seq<nat>): (r: Outcome<seq<AccessorEntry>>)
    requires forall k :: 0 <= k < |rows| ==> rows[k] < |db.methodSemantics|
    ensures !r.Thrown?
    ensures r.Fatal? <==> exists k :: 0 <= k < |rows| && db.methodSemantics[rows[k]].methodRow !in methods
    ensures r.Success? ==> |r.value| == |rows| && forall k :: 0 <= k < |rows| ==>
      r.value[k] == AccessorEntry(db.methodSemantics[rows[k]].methodRow, db.methodSemantics[rows[k]].semantics)
  {
    if |rows| == 0 then Success([])
    else
      var row := db.methodSemantics[rows[0]];
      if row.methodRow !in methods then Fatal
      else
        var tail := EntriesOf(db, rows[1..], methods);
        if tail.Success? then
          assert forall k :: 0 < k < |rows| ==> rows[1..][k - 1] == rows[k];
          Success([AccessorEntry(row.methodRow, row.semantics)] + tail.value)
        else
          assert exists k :: 0 < k < |rows| && db.methodSemantics[rows[k]].methodRow !in methods by {
            var j :| 0 <= j < |rows[1..]| && db.methodSemantics[rows[1..][j]].methodRow !in methods;
            assert rows[1..][j] == rows[j + 1];
          }
          Fatal
  }

  /** `getAccessors(owner:)`: the MethodSemantics run keyed by the owning
      property or event, each row paired with its method, which must be one
      of this type's methods. */
  function GetAccessors(db: Database, t: nat, owner: MetadataToken): (r: Outcome<seq<AccessorEntry>>)
    requires ValidTypeDef(db, t)
    ensures !r.Thrown?
    ensures r.Success? ==> forall k :: 0 <= k < |r.value| ==> r.value[k].methodRow in Methods(db, t)
    ensures r.Success? ==> |r.value| == |KeyRun(Column(db.methodSemantics, (row: SemanticsRow) => row.key), db.tableKey(owner))|
  {
    var keys := Column(db.methodSemantics, (row: SemanticsRow) => row.key);
    EntriesOf(db, KeyRun(keys, db.tableKey(owner)), Methods(db, t))
  }

  /** On a MethodSemantics table sorted by association, the accessor lookup
      traps exactly when a semantics row of the owner names a method of
      another type. */
  lemma GetAccessorsTrapsOnForeignMethod(db: Database, t: nat, owner: MetadataToken)
    requires ValidTypeDef(db, t)
    requires Sorted(Column(db.methodSemantics, (row: SemanticsRow) => row.key))
    ensures GetAccessors(db, t, owner).Fatal? <==>
      exists i :: 0 <= i < |db.methodSemantics| && db.methodSemantics[i].key == db.tableKey(owner)
        && db.methodSemantics[i].methodRow !in Methods(db, t)
  {
    var keys := Column(db.methodSemantics, (row: SemanticsRow) => row.key);
    var key := db.tableKey(owner);
    var run := KeyRun(keys, key);
    KeyRunIsAllRowsWithKey(keys, key);
    assert forall k :: 0 <= k < |run| ==> run[k] < |db.methodSemantics| && db.methodSemantics[run[k]].key == key by {
      forall k | 0 <= k < |run|
        ensures run[k] < |db.methodSemantics| && db.methodSemantics[run[k]].key == key
      {
        assert run[k] in run;
      }
    }
    EntriesOfTrapExactly(db, run, Methods(db, t), key);
  }

  /** The entries of a run holding exactly the semantics rows with one key
      trap exactly when one of those rows names a method outside `methods`. */
  lemma EntriesOfTrapExactly(db: Database, rows: seq<nat>, methods: seq<nat>, key: nat)
    requires forall k :: 0 <= k < |rows| ==> rows[k] < |db.methodSemantics| && db.methodSemantics[rows[k]].key == key
    requires forall i :: 0 <= i < |db.methodSemantics| && db.methodSemantics[i].key == key ==> i in rows
    ensures EntriesOf(db, rows, methods).Fatal? <==>
      exists i :: 0 <= i < |db.methodSemantics| && db.methodSemantics[i].key == key && db.methodSemantics[i].methodRow !in methods
  {
    if EntriesOf(db, rows, methods).Fatal? {
      var k :| 0 <= k < |rows| && db.methodSemantics[rows[k]].methodRow !in methods;
      var i := rows[k];
      assert db.methodSemantics[i].key == key;
    }
    if exists i :: 0 <= i < |db.methodSemantics| && db.methodSemantics[i].key == key && db.methodSemantics[i].methodRow !in methods {
      var i :| 0 <= i < |db.methodSemantics| && db.methodSemantics[i].key == key && db.methodSemantics[i].methodRow !in methods;
      var k :| 0 <= k < |rows| && rows[k] == i;
      assert db.methodSemantics[rows[k]].methodRow !in methods;
    }
  }

  /** On a MethodSemantics table sorted by association, the accessors of an
      owner are one entry per semantics row of that owner, in row order. */
  lemma GetAccessorsListOwnerRows(db: Database, t: nat, owner: MetadataToken)
    requires ValidTypeDef(db, t)
    requires Sorted(Column(db.methodSemantics, (row: SemanticsRow) => row.key))
    requires GetAccessors(db, t, owner).Success?
    ensures forall i :: 0 <= i < |db.methodSemantics| && db.methodSemantics[i].key == db.tableKey(owner) ==>
      AccessorEntry(db.methodSemantics[i].methodRow, db.methodSemantics[i].semantics) in GetAccessors(db, t, owner).value
  {
    var keys := Column(db.methodSemantics, (row: SemanticsRow) => row.key);
    var run := KeyRun(keys, db.tableKey(owner));
    KeyRunIsAllRowsWithKey(keys, db.tableKey(owner));
    var r := GetAccessors(db, t, owner);
    forall i | 0 <= i < |db.methodSemantics| && db.methodSemantics[i].key == db.tableKey(owner)
      ensures AccessorEntry(db.methodSemantics[i].methodRow, db.methodSemantics[i].semantics) in r.value
    {
      assert keys[i] == db.tableKey(owner);
      var k :| 0 <= k < |run| && run[k] == i;
      assert r.value[k] == AccessorEntry(db.methodSemantics[i].methodRow, db.methodSemantics[i].semantics);
    }
  }

  /** The association token of a property or event row. */
  function PropertyToken(p: nat): MetadataToken
    requires p + 1 < RowSpan
  {
    MakeToken(PROPERTY_TABLE, p + 1)
  }

  function EventToken(e: nat): MetadataToken
    requires e + 1 < RowSpan
  {
    MakeToken(EVENT_TABLE, e + 1)
  }
}
