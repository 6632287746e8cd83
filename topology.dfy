/** bch2_gc_check_topology: the child pointers of an interior node must tile the
    node's key range, each starting right after the previous one ends, the first
    at the node's min_key and the last ending at its max_key.  A child pointer
    that does not is replaced, through the journal keys, by a corrected one. */
module Topology {
  import opened Base

  /** A child pointer: its position (the child's max key), whether it is a
      btree_ptr_v2 key, and for those the child's recorded min_key and the
      RANGE_UPDATED bit. */
  datatype BtreePtr = BtreePtr(p: Pos, v2: bool, minKey: Pos, rangeUpdated: bool)

  /** What the check writes to the journal keys. */
  datatype JournalOp = Delete(pos: Pos) | Insert(key: BtreePtr)

  /** The result of one step: the new prev and the journal operations. */
  datatype TopoStep = TopoStep(prev: BtreePtr, ops: seq<JournalOp>)

  /** The start the current child must have (lines 63-67): the node's own start
      for the first child, else the successor of the previous child's end. */
  function ExpectedStart(nodeStart: Pos, prev: Option<BtreePtr>): (r: Pos)
    requires prev.Some? ==> prev.value.p < PosMax
    ensures prev.None? ==> r == nodeStart
    ensures prev.Some? ==> r == prev.value.p + 1
  {
    match prev
    case None => nodeStart
    case Some(k) => Successor(k.p)
  }

  /** The min_key mismatch of lines 73-91: only a v2 key records its start. */
  predicate UpdateMin(expected: Pos, cur: BtreePtr) {
    cur.v2 && cur.minKey != expected
  }

  /** The max_key mismatch of lines 93-101: only the last child must end where
      the node ends. */
  predicate UpdateMax(nodeEnd: Pos, cur: BtreePtr, isLast: bool) {
    isLast && cur.p != nodeEnd
  }

  /** The key that stands in place of cur once the check is done: the copy
      written by lines 123-133 when either bound is wrong, cur itself otherwise
      (nothing is written then, line 105). */
  function Corrected(expected: Pos, nodeEnd: Pos, cur: BtreePtr, isLast: bool): (n: BtreePtr)
    ensures n.v2 == cur.v2
    ensures n.minKey == (if UpdateMin(expected, cur) then expected else cur.minKey)
    ensures n.p == (if UpdateMax(nodeEnd, cur, isLast) then nodeEnd else cur.p)
    ensures n.rangeUpdated == (cur.rangeUpdated || (cur.v2 && (UpdateMin(expected, cur) || UpdateMax(nodeEnd, cur, isLast))))
    ensures !UpdateMin(expected, cur) && !UpdateMax(nodeEnd, cur, isLast) ==> n == cur
  {
    if !UpdateMin(expected, cur) && !UpdateMax(nodeEnd, cur, isLast) then cur
    else
      var n1 := if UpdateMin(expected, cur) then cur.(minKey := expected) else cur;
      var n2 := if UpdateMax(nodeEnd, cur, isLast) then n1.(p := nodeEnd) else n1;
      if cur.v2 then n2.(rangeUpdated := true) else n2
  }

  /** One call of bch2_gc_check_topology (lines 57-161).  Journal updates and the
      allocation of the new key are taken to succeed; the cached child node is
      not part of this model. */
  function CheckTopology(nodeStart: Pos, nodeEnd: Pos, prev: Option<BtreePtr>, cur: BtreePtr, isLast: bool): (r: TopoStep)
    requires prev.Some? ==> prev.value.p < PosMax
    ensures r.prev == cur
    ensures var e := ExpectedStart(nodeStart, prev);
      && (r.ops == [] <==> !UpdateMin(e, cur) && !UpdateMax(nodeEnd, cur, isLast))
      && (r.ops != [] ==> r.ops[|r.ops| - 1] == Insert(Corrected(e, nodeEnd, cur, isLast)))
      && (UpdateMax(nodeEnd, cur, isLast) ==> r.ops == [Delete(cur.p), Insert(Corrected(e, nodeEnd, cur, isLast))])
      && (!UpdateMax(nodeEnd, cur, isLast) ==> forall i :: 0 <= i < |r.ops| ==> r.ops[i].Insert?)
  {
    var e := ExpectedStart(nodeStart, prev);
    var updMin := UpdateMin(e, cur);
    var updMax := UpdateMax(nodeEnd, cur, isLast);
    if !updMin && !updMax then TopoStep(cur, [])
    else
      var del := if updMax then [Delete(cur.p)] else [];
      TopoStep(cur, del + [Insert(Corrected(e, nodeEnd, cur, isLast))])
  }

  /** Child pointers of a node come in strictly increasing position order. */
  predicate Increasing(keys: seq<BtreePtr>) {
    forall i, j :: 0 <= i < j < |keys| ==> keys[i].p < keys[j].p
  }

  /** The check run over all child pointers of a node, in order (the topology part
      of btree_gc_mark_node, lines 350-373): the journal operations, and the keys
      as they stand once the journal operations are applied. */
  datatype NodeCheck = NodeCheck(ops: seq<JournalOp>, keys: seq<BtreePtr>)

  /** NodeCheckKeys and ChangedKeysInserted state how the keys relate to the
      children. */
  function CheckNodeTopology(nodeStart: Pos, nodeEnd: Pos, prev: Option<BtreePtr>, keys: seq<BtreePtr>): (r: NodeCheck)
    requires Increasing(keys)
    requires prev.Some? && keys != [] ==> prev.value.p < keys[0].p
    ensures |r.keys| == |keys|
    decreases |keys|
  {
    if keys == [] then NodeCheck([], [])
    else
      var isLast := |keys| == 1;
      var step := CheckTopology(nodeStart, nodeEnd, prev, keys[0], isLast);
      var n := Corrected(ExpectedStart(nodeStart, prev), nodeEnd, keys[0], isLast);
      var rest := CheckNodeTopology(nodeStart, nodeEnd, Some(step.prev), keys[1..]);
      NodeCheck(step.ops + rest.ops, [n] + rest.keys)
  }

  /** The tail of an increasing run is increasing. */
  lemma TailIncreasing(keys: seq<BtreePtr>)
    requires Increasing(keys) && keys != []
    ensures Increasing(keys[1..])
  {
    forall i, j | 0 <= i < j < |keys[1..]| ensures keys[1..][i].p < keys[1..][j].p {
      assert keys[1..][i] == keys[i + 1] && keys[1..][j] == keys[j + 1];
    }
  }

  /** Each child keeps its kind and every child but the last its position. */
  lemma {:induction false} NodeCheckKeys(nodeStart: Pos, nodeEnd: Pos, prev: Option<BtreePtr>, keys: seq<BtreePtr>)
    requires Increasing(keys)
    requires prev.Some? && keys != [] ==> prev.value.p < keys[0].p
    ensures var r := CheckNodeTopology(nodeStart, nodeEnd, prev, keys);
      && (forall i :: 0 <= i < |keys| ==> r.keys[i].v2 == keys[i].v2)
      && (forall i :: 0 <= i < |keys| - 1 ==> r.keys[i].p == keys[i].p)
    decreases |keys|
  {
    if keys != [] {
      var r := CheckNodeTopology(nodeStart, nodeEnd, prev, keys);
      var rest := CheckNodeTopology(nodeStart, nodeEnd, Some(keys[0]), keys[1..]);
      TailIncreasing(keys);
      NodeCheckKeys(nodeStart, nodeEnd, Some(keys[0]), keys[1..]);
      forall i | 0 < i < |keys|
        ensures r.keys[i].v2 == keys[i].v2
        ensures i < |keys| - 1 ==> r.keys[i].p == keys[i].p
      {
        assert r.keys[i] == rest.keys[i - 1] && keys[i] == keys[1..][i - 1];
      }
    }
  }

  /** When nothing is written for a node, none of its children changes. */
  lemma {:induction false} NothingWrittenKeepsKeys(nodeStart: Pos, nodeEnd: Pos, prev: Option<BtreePtr>, keys: seq<BtreePtr>)
    requires Increasing(keys)
    requires prev.Some? && keys != [] ==> prev.value.p < keys[0].p
    ensures var r := CheckNodeTopology(nodeStart, nodeEnd, prev, keys);
      r.ops == [] ==> r.keys == keys
    decreases |keys|
  {
    if keys != [] {
      TailIncreasing(keys);
      NothingWrittenKeepsKeys(nodeStart, nodeEnd, Some(keys[0]), keys[1..]);
      assert keys == [keys[0]] + keys[1..];
    }
  }

  /** Every child the check changes is replaced through the journal: its new
      key is among the inserted ones. */
  lemma {:induction false} ChangedKeysInserted(nodeStart: Pos, nodeEnd: Pos, prev: Option<BtreePtr>, keys: seq<BtreePtr>)
    requires Increasing(keys)
    requires prev.Some? && keys != [] ==> prev.value.p < keys[0].p
    ensures var r := CheckNodeTopology(nodeStart, nodeEnd, prev, keys);
      forall i :: 0 <= i < |keys| ==> r.keys[i] == keys[i] || Insert(r.keys[i]) in r.ops
    decreases |keys|
  {
    if keys != [] {
      var r := CheckNodeTopology(nodeStart, nodeEnd, prev, keys);
      var step := CheckTopology(nodeStart, nodeEnd, prev, keys[0], |keys| == 1);
      var rest := CheckNodeTopology(nodeStart, nodeEnd, Some(keys[0]), keys[1..]);
      TailIncreasing(keys);
      ChangedKeysInserted(nodeStart, nodeEnd, Some(keys[0]), keys[1..]);
      forall i | 0 <= i < |keys| ensures r.keys[i] == keys[i] || Insert(r.keys[i]) in r.ops {
        if i == 0 {
          if step.ops != [] {
            assert r.ops[|step.ops| - 1] == step.ops[|step.ops| - 1];
          }
        } else {
          assert r.keys[i] == rest.keys[i - 1] && keys[i] == keys[1..][i - 1];
          if r.keys[i] != keys[i] {
            var j :| 0 <= j < |rest.ops| && rest.ops[j] == Insert(r.keys[i]);
            assert r.ops[|step.ops| + j] == rest.ops[j];
          }
        }
      }
    }
  }

  /** The children of an all-v2 node tile [start, end]: the first starts at the
      node's start, each next one right after its predecessor, the last ends at
      the node's end. */
  predicate Tiles(start: Pos, end: Pos, keys: seq<BtreePtr>) {
    && keys != []
    && keys[0].minKey == start
    && (forall i :: 0 < i < |keys| ==> keys[i].minKey == keys[i - 1].p + 1)
    && keys[|keys| - 1].p == end
  }

  predicate AllV2(keys: seq<BtreePtr>) {
    forall i :: 0 <= i < |keys| ==> keys[i].v2
  }

  /** The tail of an increasing all-v2 run is one too, and starts after its head. */
  lemma TailKeys(keys: seq<BtreePtr>)
    requires Increasing(keys) && AllV2(keys) && |keys| > 1
    ensures Increasing(keys[1..]) && AllV2(keys[1..]) && keys[0].p < keys[1..][0].p
  {
    var tail := keys[1..];
    forall i, j | 0 <= i < j < |tail| ensures tail[i].p < tail[j].p {
      assert tail[i] == keys[i + 1] && tail[j] == keys[j + 1];
    }
    forall i | 0 <= i < |tail| ensures tail[i].v2 {
      assert tail[i] == keys[i + 1];
    }
  }

  /** A run tiles [start, end] exactly when its head starts at start and its tail
      tiles what is left after the head. */
  lemma TilesCons(start: Pos, end: Pos, k: BtreePtr, rest: seq<BtreePtr>)
    requires rest != [] && k.p < PosMax
    ensures Tiles(start, end, [k] + rest) <==> k.minKey == start && Tiles(k.p + 1, end, rest)
  {
    var ks := [k] + rest;
    assert ks[1..] == rest;
    if Tiles(start, end, ks) {
      forall i | 0 < i < |rest| ensures rest[i].minKey == rest[i - 1].p + 1 {
        assert rest[i] == ks[i + 1] && rest[i - 1] == ks[i];
      }
    }
    if k.minKey == start && Tiles(k.p + 1, end, rest) {
      forall i | 0 < i < |ks| ensures ks[i].minKey == ks[i - 1].p + 1 {
        if i > 1 { assert ks[i] == rest[i - 1] && ks[i - 1] == rest[i - 2]; }
      }
    }
  }

  /** One step of the walk: the head is corrected on its own (and so stays as
      it is when it starts where expected), the tail is walked from the head. */
  lemma CheckNodeStep(nodeStart: Pos, nodeEnd: Pos, prev: Option<BtreePtr>, keys: seq<BtreePtr>)
    requires Increasing(keys) && AllV2(keys) && |keys| > 1
    requires prev.Some? ==> prev.value.p < keys[0].p
    ensures var r := CheckNodeTopology(nodeStart, nodeEnd, prev, keys);
      var rest := CheckNodeTopology(nodeStart, nodeEnd, Some(keys[0]), keys[1..]);
      var e := ExpectedStart(nodeStart, prev);
      && r.keys == [Corrected(e, nodeEnd, keys[0], false)] + rest.keys
      && (r.ops == [] <==> keys[0].minKey == e && rest.ops == [])
  {
    TailKeys(keys);
  }

  /** The journal part of one step: nothing is written for the node exactly when
      its head starts where expected and nothing is written for the tail. */
  lemma CheckNodeStepOps(nodeStart: Pos, nodeEnd: Pos, prev: Option<BtreePtr>, keys: seq<BtreePtr>)
    requires Increasing(keys) && AllV2(keys) && |keys| > 1
    requires prev.Some? ==> prev.value.p < keys[0].p
    ensures CheckNodeTopology(nodeStart, nodeEnd, prev, keys).ops == []
            <==> keys[0].minKey == ExpectedStart(nodeStart, prev)
                 && CheckNodeTopology(nodeStart, nodeEnd, Some(keys[0]), keys[1..]).ops == []
  {
    TailKeys(keys);
  }

  /** The keys as corrected, seen from a start expected: the first corrected key
      starts at it, each later one starts right after the previous original (and
      so corrected) end, and the last ends at the node's end. */
  lemma {:induction false} CorrectedTiles(nodeStart: Pos, nodeEnd: Pos, prev: Option<BtreePtr>, keys: seq<BtreePtr>)
    requires Increasing(keys) && AllV2(keys) && keys != []
    requires prev.Some? ==> prev.value.p < keys[0].p
    ensures Tiles(ExpectedStart(nodeStart, prev), nodeEnd, CheckNodeTopology(nodeStart, nodeEnd, prev, keys).keys)
    decreases |keys|
  {
    if |keys| > 1 {
      TailKeys(keys);
      CheckNodeStep(nodeStart, nodeEnd, prev, keys);
      CorrectedTiles(nodeStart, nodeEnd, Some(keys[0]), keys[1..]);
      var rest := CheckNodeTopology(nodeStart, nodeEnd, Some(keys[0]), keys[1..]);
      var e := ExpectedStart(nodeStart, prev);
      TilesCons(e, nodeEnd, Corrected(e, nodeEnd, keys[0], false), rest.keys);
    }
  }

  /** Topology repair restores the tiling: once the corrections are applied, the
      children of an all-v2 node tile exactly the node's range. */
  lemma RepairRestoresTiling(nodeStart: Pos, nodeEnd: Pos, keys: seq<BtreePtr>)
    requires Increasing(keys) && AllV2(keys) && keys != []
    ensures Tiles(nodeStart, nodeEnd, CheckNodeTopology(nodeStart, nodeEnd, None, keys).keys)
  {
    CorrectedTiles(nodeStart, nodeEnd, None, keys);
  }

  /** Nothing is written for a node whose all-v2 children already tile its range,
      and only for such a node. */
  lemma {:induction false} NoRepairIffTiles(nodeStart: Pos, nodeEnd: Pos, prev: Option<BtreePtr>, keys: seq<BtreePtr>)
    requires Increasing(keys) && AllV2(keys) && keys != []
    requires prev.Some? ==> prev.value.p < keys[0].p
    ensures CheckNodeTopology(nodeStart, nodeEnd, prev, keys).ops == []
            <==> Tiles(ExpectedStart(nodeStart, prev), nodeEnd, keys)
    decreases |keys|
  {
    if |keys| > 1 {
      TailKeys(keys);
      CheckNodeStepOps(nodeStart, nodeEnd, prev, keys);
      NoRepairIffTiles(nodeStart, nodeEnd, Some(keys[0]), keys[1..]);
      assert keys == [keys[0]] + keys[1..];
      TilesCons(ExpectedStart(nodeStart, prev), nodeEnd, keys[0], keys[1..]);
    }
  }
}
