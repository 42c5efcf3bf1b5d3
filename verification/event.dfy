/** Events: accessor bucketing into add, remove, fire and other methods, the
    preferred accessor, and the visibility an event takes from it. */
module Events {
  import opened Wrappers
  import opened TypeMetadata
  import opened TypeDefinitions
  import opened Accessors

  // The name prefixes of the accessor methods the compiler emits.
  const ADD_ACCESSOR_PREFIX: string := "add_"
  const REMOVE_ACCESSOR_PREFIX: string := "remove_"
  const RAISE_ACCESSOR_PREFIX: string := "raise_"

  datatype EventAccessors = EventAccessors(add: Option<nat>, remove: Option<nat>, fire: Option<nat>, others: seq<nat>)

  predicate IsEventSemantics(s: nat) {
    s == ADD_ON || s == REMOVE_ON || s == FIRE || s == OTHER
  }

  /** One step of the bucketing loop; any other semantics is a fatalError. */
  function AddEventEntry(acc: EventAccessors, e: AccessorEntry): Outcome<EventAccessors> {
    if e.semantics == ADD_ON then Success(acc.(add := Some(e.methodRow)))
    else if e.semantics == REMOVE_ON then Success(acc.(remove := Some(e.methodRow)))
    else if e.semantics == FIRE then Success(acc.(fire := Some(e.methodRow)))
    else if e.semantics == OTHER then Success(acc.(others := acc.others + [e.methodRow]))
    else Fatal
  }

  /** `accessors`: the entries folded in order, from empty buckets. The add,
      remove and fire accessors are the last entries of their kind, the
      others every `other` entry in order; an unexpected semantics value
      traps. */
  function EventAccessorsOf(entries: seq<AccessorEntry>): (r: Outcome<EventAccessors>)
    ensures !r.Thrown?
    ensures r.Fatal? <==> exists i :: 0 <= i < |entries| && !IsEventSemantics(entries[i].semantics)
    ensures r.Success? ==> r.value == EventAccessors(LastWith(entries, ADD_ON), LastWith(entries, REMOVE_ON),
                                                     LastWith(entries, FIRE), AllWith(entries, OTHER))
  {
    if |entries| == 0 then Success(EventAccessors(None, None, None, []))
    else
      var init := entries[..|entries| - 1];
      assert forall i :: 0 <= i < |entries| - 1 ==> init[i] == entries[i];
      var acc :- EventAccessorsOf(init);
      LastWithSnoc(entries, ADD_ON);
      LastWithSnoc(entries, REMOVE_ON);
      LastWithSnoc(entries, FIRE);
      AddEventEntry(acc, entries[|entries| - 1])
  }

  /** `anyAccessor`: the add accessor, else the remove accessor, else the
      fire accessor, else the first other accessor. */
  function AnyEventAccessor(acc: EventAccessors): (r: Option<nat>)
    ensures acc.add.Some? ==> r == acc.add
    ensures acc.add.None? && acc.remove.Some? ==> r == acc.remove
    ensures acc.add.None? && acc.remove.None? && acc.fire.Some? ==> r == acc.fire
    ensures acc.add.None? && acc.remove.None? && acc.fire.None? ==> (r.Some? <==> |acc.others| > 0)
    ensures acc.add.None? && acc.remove.None? && acc.fire.None? && |acc.others| > 0 ==> r == Some(acc.others[0])
  {
    if acc.add.Some? then acc.add
    else if acc.remove.Some? then acc.remove
    else if acc.fire.Some? then acc.fire
    else if |acc.others| > 0 then Some(acc.others[0])
    else None
  }

  /** The preferred accessor exists exactly when the event has accessor
      entries at all, and it is the method of one of them. */
  lemma AnyEventAccessorIsAnEntry(entries: seq<AccessorEntry>)
    requires EventAccessorsOf(entries).Success?
    ensures AnyEventAccessor(EventAccessorsOf(entries).value).None? <==> |entries| == 0
    ensures AnyEventAccessor(EventAccessorsOf(entries).value).Some? ==>
      exists i :: 0 <= i < |entries| && entries[i].methodRow == AnyEventAccessor(EventAccessorsOf(entries).value).value
  {
    var acc := EventAccessorsOf(entries).value;
    if |entries| > 0 {
      assert IsEventSemantics(entries[0].semantics);
      if acc.add.None? && acc.remove.None? && acc.fire.None? {
        assert entries[0].semantics == OTHER;
        assert entries[0].methodRow in acc.others;
      }
    }
  }

  /** `visibility`: that of the preferred accessor, public without one. */
  function EventVisibility(acc: EventAccessors, flags: nat -> MethodFlags): (r: Visibility)
    ensures AnyEventAccessor(acc).None? ==> r == Public
    ensures AnyEventAccessor(acc).Some? ==> r == flags(AnyEventAccessor(acc).value).visibility
  {
    match AnyEventAccessor(acc)
    case None => Public
    case Some(m) => flags(m).visibility
  }

  /** Under the rule of section II.22.28 of ECMA-335 that all accessors of an
      event share one accessibility, the event has that accessibility
      whenever it has accessors at all. */
  lemma EventVisibilityIsSharedAccessorVisibility(entries: seq<AccessorEntry>, flags: nat -> MethodFlags, v: Visibility)
    requires EventAccessorsOf(entries).Success?
    requires forall i :: 0 <= i < |entries| ==> flags(entries[i].methodRow).visibility == v
    ensures |entries| > 0 ==> EventVisibility(EventAccessorsOf(entries).value, flags) == v
    ensures |entries| == 0 ==> EventVisibility(EventAccessorsOf(entries).value, flags) == Public
  {
    AnyEventAccessorIsAnEntry(entries);
  }
}
