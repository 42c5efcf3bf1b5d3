/** The accessor entries of a property or event, read from the
    MethodSemantics run of its owner, and the method flags derived
    properties consult. */
module Accessors {
  import opened Wrappers
  import opened TypeMetadata
  import opened TypeDefinitions

  // MethodSemanticsAttributes, section II.23.1.12 of ECMA-335.
  const SETTER: nat := 0x0001
  const GETTER: nat := 0x0002
  const OTHER: nat := 0x0004
  const ADD_ON: nat := 0x0008
  const REMOVE_ON: nat := 0x0010
  const FIRE: nat := 0x0020

  /** The flags of a method definition that properties and events report. */
  datatype MethodFlags = MethodFlags(
    visibility: Visibility,
    isStatic: bool,
    isVirtual: bool,
    isAbstract: bool,
    isFinal: bool)

  /** Section II.22.26 of ECMA-335: an abstract method is virtual. */
  predicate WfMethodFlags(f: MethodFlags) {
    f.isAbstract ==> f.isVirtual
  }

  /** The position of the last entry with semantics `s`. */
  function LastIndexWith(entries: seq<AccessorEntry>, s: nat): (r: Option<nat>)
    ensures r.None? <==> forall i :: 0 <= i < |entries| ==> entries[i].semantics != s
    ensures r.Some? ==> r.value < |entries| && entries[r.value].semantics == s
    ensures r.Some? ==> forall j :: r.value < j < |entries| ==> entries[j].semantics != s
  {
    if |entries| == 0 then None
    else if entries[|entries| - 1].semantics == s then Some(|entries| - 1)
    else
      assert forall i :: 0 <= i < |entries| - 1 ==> entries[..|entries| - 1][i] == entries[i];
      LastIndexWith(entries[..|entries| - 1], s)
  }

  /** The method of the last entry with semantics `s`: a later entry
      overwrites an earlier one. */
  function LastWith(entries: seq<AccessorEntry>, s: nat): Option<nat> {
    match LastIndexWith(entries, s)
    case None => None
    case Some(i) => Some(entries[i].methodRow)
  }

  /** The last entry with semantics `s` is the final entry when that has it,
      and otherwise the last one before it. */
  lemma LastWithSnoc(entries: seq<AccessorEntry>, s: nat)
    requires |entries| > 0
    ensures LastWith(entries, s) == if entries[|entries| - 1].semantics == s then Some(entries[|entries| - 1].methodRow)
                                     else LastWith(entries[..|entries| - 1], s)
  {
  }

  /** The positions of the entries with semantics `s`: each of them once,
      in ascending order. */
  function PositionsWith(entries: seq<AccessorEntry>, s: nat): (r: seq<nat>)
    ensures forall k :: 0 <= k < |r| ==> r[k] < |entries| && entries[r[k]].semantics == s
    ensures forall k :: 0 < k < |r| ==> r[k - 1] < r[k]
    ensures forall i :: 0 <= i < |entries| && entries[i].semantics == s ==> i in r
  {
    if |entries| == 0 then []
    else
      var init := entries[..|entries| - 1];
      assert forall i :: 0 <= i < |entries| - 1 ==> init[i] == entries[i];
      PositionsWith(init, s) + (if entries[|entries| - 1].semantics == s then [|entries| - 1] else [])
  }

  /** The methods of all entries with semantics `s`, in entry order. */
  function AllWith(entries: seq<AccessorEntry>, s: nat): (r: seq<nat>)
    ensures |r| <= |entries|
    ensures forall i :: 0 <= i < |entries| && entries[i].semantics == s ==> entries[i].methodRow in r
    ensures forall k :: 0 <= k < |r| ==>
      exists i :: 0 <= i < |entries| && entries[i].semantics == s && entries[i].methodRow == r[k]
  {
    if |entries| == 0 then []
    else
      var init := entries[..|entries| - 1];
      var last := entries[|entries| - 1];
      assert forall i :: 0 <= i < |entries| - 1 ==> init[i] == entries[i];
      AllWith(init, s) + (if last.semantics == s then [last.methodRow] else [])
  }

  lemma AllWithSnoc(entries: seq<AccessorEntry>, s: nat)
    requires |entries| > 0
    ensures var n := |entries| - 1;
      AllWith(entries, s) == AllWith(entries[..n], s) + (if entries[n].semantics == s then [entries[n].methodRow] else [])
  {
  }

  lemma PositionsWithSnoc(entries: seq<AccessorEntry>, s: nat)
    requires |entries| > 0
    ensures var n := |entries| - 1;
      PositionsWith(entries, s) == PositionsWith(entries[..n], s) + (if entries[n].semantics == s then [n] else [])
  {
  }

  /** Appending the last entry to both the methods and the positions keeps
      the k-th method the method at the k-th position. */
  lemma PointwiseSnoc(entries: seq<AccessorEntry>, methods: seq<nat>, positions: seq<nat>, hit: bool)
    requires |entries| > 0 && |methods| == |positions|
    requires forall k :: 0 <= k < |positions| ==> positions[k] < |entries|
    requires forall k :: 0 <= k < |methods| ==> methods[k] == entries[positions[k]].methodRow
    ensures var n := |entries| - 1;
      var all := methods + (if hit then [entries[n].methodRow] else []);
      var at := positions + (if hit then [n] else []);
      |all| == |at| && forall k :: 0 <= k < |all| ==> at[k] < |entries| && all[k] == entries[at[k]].methodRow
  {
  }

  /** `AllWith` keeps entry order and multiplicity: its k-th method is the
      method of the k-th entry with semantics `s`. */
  lemma {:induction false} AllWithInEntryOrder(entries: seq<AccessorEntry>, s: nat)
    ensures |AllWith(entries, s)| == |PositionsWith(entries, s)|
    ensures forall k :: 0 <= k < |AllWith(entries, s)| ==>
      AllWith(entries, s)[k] == entries[PositionsWith(entries, s)[k]].methodRow
  {
    if |entries| > 0 {
      var n := |entries| - 1;
      var init := entries[..n];
      AllWithInEntryOrder(init, s);
      var methods, positions := AllWith(init, s), PositionsWith(init, s);
      forall k | 0 <= k < |methods|
        ensures positions[k] < n && methods[k] == entries[positions[k]].methodRow
      {
        assert init[positions[k]] == entries[positions[k]];
      }
      AllWithSnoc(entries, s);
      PositionsWithSnoc(entries, s);
      PointwiseSnoc(entries, methods, positions, entries[n].semantics == s);
    }
  }

  /** The first entry, if any, is the first of the entries with its
      semantics. */
  lemma {:induction false} FirstEntryLeadsItsBucket(entries: seq<AccessorEntry>)
    requires |entries| > 0
    ensures |AllWith(entries, entries[0].semantics)| > 0
    ensures AllWith(entries, entries[0].semantics)[0] == entries[0].methodRow
  {
    if |entries| > 1 {
      var init := entries[..|entries| - 1];
      FirstEntryLeadsItsBucket(init);
      assert init[0] == entries[0];
    }
  }
}
