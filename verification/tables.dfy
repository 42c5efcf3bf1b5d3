/** Owner-keyed metadata tables, seen through their key columns: row `i` of
    a table (counted from zero) has primary key `keys[i]`. Tables such as
    InterfaceImpl and MethodSemantics are sorted on that key (section II.22
    of ECMA-335), so the rows of one owner form a contiguous run. */
module Tables {
  import opened Wrappers

  /** The key column of `rows` under the column selector `key`. */
  function Column<R>(rows: seq<R>, key: R -> nat): (r: seq<nat>)
    ensures |r| == |rows|
    ensures forall i :: 0 <= i < |rows| ==> r[i] == key(rows[i])
  {
    seq(|rows|, i requires 0 <= i < |rows| => key(rows[i]))
  }

  predicate Sorted(keys: seq<nat>) {
    forall i, j :: 0 <= i <= j < |keys| ==> keys[i] <= keys[j]
  }

  /** findFirst(primaryKey:): the first row whose key is `key`, if any. */
  function FindFirst(keys: seq<nat>, key: nat): (r: Option<nat>)
    ensures r.None? <==> forall i :: 0 <= i < |keys| ==> keys[i] != key
    ensures r.Some? ==> r.value < |keys| && keys[r.value] == key
    ensures r.Some? ==> forall i :: 0 <= i < r.value ==> keys[i] != key
  {
    if |keys| == 0 then None
    else if keys[0] == key then Some(0)
    else
      match FindFirst(keys[1..], key)
      case None => None
      case Some(i) => Some(i + 1)
  }

  /** The rows from `start` on, for as long as their key stays `key` and the
      table has not ended. */
  function RunFrom(keys: seq<nat>, start: nat, key: nat): (r: seq<nat>)
    requires start <= |keys|
    ensures start + |r| <= |keys|
    ensures forall k :: 0 <= k < |r| ==> r[k] == start + k && keys[r[k]] == key
    ensures start + |r| == |keys| || keys[start + |r|] != key
    decreases |keys| - start
  {
    if start == |keys| || keys[start] != key then []
    else
      var tail := RunFrom(keys, start + 1, key);
      var r := [start] + tail;
      assert |r| == 1 + |tail| && r[0] == start;
      assert forall k :: 0 < k < |r| ==> r[k] == tail[k - 1];
      assert start + |r| == start + 1 + |tail|;
      r
  }

  /** The scan behind `baseInterfaces` and `getAccessors`: from the first row
      with the key, collect rows until the key changes or the table ends; no
      row at all when no row has the key. */
  function KeyRun(keys: seq<nat>, key: nat): (r: seq<nat>)
    ensures FindFirst(keys, key).None? ==> r == []
    ensures FindFirst(keys, key).Some? ==> r == RunFrom(keys, FindFirst(keys, key).value, key)
  {
    match FindFirst(keys, key)
    case None => []
    case Some(first) => RunFrom(keys, first, key)
  }

  /** The scan loop as the source writes it, row index advancing one row at
      a time. */
  method ScanKeyRun(keys: seq<nat>, key: nat) returns (rows: seq<nat>)
    ensures rows == KeyRun(keys, key)
  {
    rows := [];
    var first := FindFirst(keys, key);
    if first.None? {
      return;
    }
    var index := first.value;
    while index != |keys|
      invariant first.value <= index <= |keys|
      invariant RunFrom(keys, first.value, key) == rows + RunFrom(keys, index, key)
      decreases |keys| - index
    {
      if keys[index] != key {
        break;
      }
      rows := rows + [index];
      index := index + 1;
    }
  }

  /** On a table sorted by key, the scan finds every row with the key and no
      other, in ascending row order. */
  lemma {:induction false} KeyRunIsAllRowsWithKey(keys: seq<nat>, key: nat)
    requires Sorted(keys)
    ensures forall i :: 0 <= i < |keys| ==> (keys[i] == key <==> i in KeyRun(keys, key))
    ensures forall k :: 0 < k < |KeyRun(keys, key)| ==> KeyRun(keys, key)[k - 1] < KeyRun(keys, key)[k]
  {
    var run := KeyRun(keys, key);
    var first := FindFirst(keys, key);
    if first.Some? {
      var start := first.value;
      var stop := start + |run|;
      forall i | 0 <= i < |keys|
        ensures keys[i] == key <==> i in run
      {
        if start <= i < stop {
          assert run[i - start] == i;
        } else if stop <= i {
          assert keys[start] <= keys[stop] <= keys[i];
          assert key < keys[stop];
        }
      }
    }
  }

  /** The rows `lo`, `lo + 1`, ..., `hi - 1`. */
  function Range(lo: nat, hi: nat): (r: seq<nat>)
    requires lo <= hi
    ensures |r| == hi - lo
    ensures forall k :: 0 <= k < |r| ==> r[k] == lo + k
  {
    seq(hi - lo, k requires 0 <= k < hi - lo => lo + k)
  }

  /** The first child row of parent `p`: its list column, as a zero-based
      child row, clamped to the child table. */
  function ListStart(lists: seq<nat>, p: nat, childCount: nat): nat
    requires p < |lists|
  {
    if lists[p] < childCount then lists[p] else childCount
  }

  /** getChildRowRange: the children of parent row `p` run from its own list
      entry up to the next parent's list entry, or to the end of the child
      table for the last parent (section II.22 of ECMA-335, for instance
      TypeDef.MethodList and PropertyMap.PropertyList). */
  function ChildRange(lists: seq<nat>, p: nat, childCount: nat): (r: seq<nat>)
    requires p < |lists|
    ensures forall k :: 0 <= k < |r| ==> r[k] == ListStart(lists, p, childCount) + k && r[k] < childCount
    ensures p + 1 == |lists| ==> ListStart(lists, p, childCount) + |r| == childCount
    ensures p + 1 < |lists| && ListStart(lists, p, childCount) <= ListStart(lists, p + 1, childCount)
      ==> ListStart(lists, p, childCount) + |r| == ListStart(lists, p + 1, childCount)
  {
    var lo := ListStart(lists, p, childCount);
    var hi := if p + 1 < |lists| then ListStart(lists, p + 1, childCount) else childCount;
    if hi < lo then [] else Range(lo, hi)
  }

  /** The end of a parent row's child range: the next row's list entry, or
      the end of the child table for the last row. */
  function ListEnd(lists: seq<nat>, p: nat, childCount: nat): nat
    requires p < |lists|
  {
    if p + 1 < |lists| then ListStart(lists, p + 1, childCount) else childCount
  }

  /** With list entries in ascending order a child range is the whole run
      from the row's list entry to where the next one starts. */
  lemma ChildRangeIsRange(lists: seq<nat>, p: nat, childCount: nat)
    requires p < |lists| && Sorted(lists)
    ensures ListStart(lists, p, childCount) <= ListEnd(lists, p, childCount)
    ensures ChildRange(lists, p, childCount) == Range(ListStart(lists, p, childCount), ListEnd(lists, p, childCount))
  {
    if p + 1 < |lists| {
      assert lists[p] <= lists[p + 1];
    }
  }

  /** With list entries in ascending order, as section II.22 requires, two
      different parents never share a child row. */
  lemma ChildRangesDisjoint(lists: seq<nat>, p: nat, q: nat, childCount: nat)
    requires Sorted(lists)
    requires p < q < |lists|
    ensures forall c :: c in ChildRange(lists, p, childCount) ==> c !in ChildRange(lists, q, childCount)
  {
    var rp := ChildRange(lists, p, childCount);
    var rq := ChildRange(lists, q, childCount);
    assert ListStart(lists, p + 1, childCount) <= ListStart(lists, q, childCount);
    forall c | c in rp
      ensures c !in rq
    {
      var k :| 0 <= k < |rp| && rp[k] == c;
      assert c < ListStart(lists, p + 1, childCount);
    }
  }
}
