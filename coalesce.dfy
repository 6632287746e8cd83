/** Btree node coalescing (bch2_coalesce_nodes and the sliding window of
    bch2_coalesce_btree): up to four adjacent nodes of one level, slot 0 the node
    visited last and holding the highest keys, are repacked into as few nodes as
    their keys need under an occupancy target of two thirds of a node. */
module Coalesce {
  import opened Base

  /** GC_MERGE_NODES: the width of the sliding window. */
  const MergeNodes: nat := 4

  /** The block geometry: a node header of hdrU64s u64s, blocks of blockU64s u64s,
      and btree nodes of nodeBlocks blocks (btree_blocks). */
  datatype Geometry = Geometry(hdrU64s: nat, blockU64s: nat, nodeBlocks: nat)

  predicate GeometryOk(g: Geometry) {
    g.blockU64s > 0
  }

  /** __vstruct_blocks(struct btree_node, block_bits, u64s): the blocks taken by a
      node holding u64s of keys, its header included, rounded up. */
  function Blocks(g: Geometry, u64s: nat): nat
    requires GeometryOk(g)
  {
    CeilDiv(g.hdrU64s + u64s, g.blockU64s)
  }

  /** The occupancy target of line 1232. */
  function Budget(g: Geometry): nat {
    g.nodeBlocks * 2 / 3
  }

  /** A packed key: its position and its size in u64s. */
  datatype BKey = BKey(pos: Pos, u64s: nat)

  /** A btree node as coalescing sees it: its key range (min_key, and max_key,
      which is also the position of the node's own key in its parent), its level,
      and its keys, sorted down to one bset. */
  datatype Node = Node(minKey: Pos, maxKey: Pos, level: nat, keys: seq<BKey>)

  /** The u64s of a run of keys (bset.u64s). */
  function Size(ks: seq<BKey>): nat
    decreases |ks|
  {
    if ks == [] then 0 else Size(ks[..|ks| - 1]) + ks[|ks| - 1].u64s
  }

  lemma {:induction false} SizeAppend(a: seq<BKey>, b: seq<BKey>)
    ensures Size(a + b) == Size(a) + Size(b)
    decreases |b|
  {
    if b == [] {
      assert a + b == a;
    } else {
      assert (a + b)[..|a + b| - 1] == a + b[..|b| - 1];
      SizeAppend(a, b[..|b| - 1]);
    }
  }

  /** nr.live_u64s summed over nodes. */
  function LiveU64s(ns: seq<Node>): nat
    decreases |ns|
  {
    if ns == [] then 0 else LiveU64s(ns[..|ns| - 1]) + Size(ns[|ns| - 1].keys)
  }

  // ---------------------------------------------------------------------------
  // The window and its nodes

  /** A node's keys are in strictly increasing position order and inside its range. */
  predicate NodeOk(n: Node) {
    && n.minKey <= n.maxKey
    && (forall a, b :: 0 <= a < b < |n.keys| ==> n.keys[a].pos < n.keys[b].pos)
    && (forall k :: 0 <= k < |n.keys| ==> n.minKey <= n.keys[k].pos <= n.maxKey)
  }

  /** Node hi starts right after node lo ends. */
  predicate Adjacent(lo: Node, hi: Node) {
    lo.maxKey < PosMax && hi.minKey == lo.maxKey + 1
  }

  /** Nodes of one level in descending key order, each starting where the next one
      (the one below it in key order) ends: how a btree lays out neighbours. */
  predicate WellFormed(s: seq<Node>) {
    && (forall k :: 0 <= k < |s| ==> NodeOk(s[k]))
    && (forall k :: 0 < k < |s| ==> Adjacent(s[k], s[k - 1]))
    && (forall k :: 0 <= k < |s| ==> s[k].level == s[0].level)
  }

  /** All keys of the nodes in key order: the lowest node, the last, first. */
  function Flatten(s: seq<Node>): seq<BKey>
    decreases |s|
  {
    if s == [] then [] else Flatten(s[1..]) + s[0].keys
  }

  lemma {:induction false} FlattenSplit(a: seq<Node>, b: seq<Node>)
    ensures Flatten(a + b) == Flatten(b) + Flatten(a)
    decreases |a|
  {
    if a == [] {
      assert a + b == b;
    } else {
      assert (a + b)[1..] == a[1..] + b;
      FlattenSplit(a[1..], b);
    }
  }

  /** The nodes at the head of a window, up to its first empty slot (line 1243). */
  function Leading(w: seq<Option<Node>>): (r: seq<Node>)
    ensures |r| <= |w|
    ensures forall k :: 0 <= k < |r| ==> w[k] == Some(r[k])
    ensures |r| < |w| ==> w[|r|].None?
    decreases |w|
  {
    if w == [] || w[0].None? then [] else [w[0].value] + Leading(w[1..])
  }

  /** An array prefix holding the nodes of s. */
  predicate Holds(a: seq<Option<Node>>, s: seq<Node>) {
    |s| <= |a| && forall k :: 0 <= k < |s| ==> a[k] == Some(s[k])
  }

  // ---------------------------------------------------------------------------
  // The fit test (lines 1242-1252)

  /** The test of lines 1249-1252 passes: at least two nodes, and their live keys,
      spread evenly over one node fewer, stay within the target. */
  predicate WorthCoalescing(g: Geometry, ns: seq<Node>)
    requires GeometryOk(g)
  {
    |ns| > 1 && Blocks(g, CeilDiv(LiveU64s(ns), |ns| - 1)) <= Budget(g)
  }

  lemma {:induction false} MulLe(a: int, b: int, c: nat)
    requires a <= b
    ensures a * c <= b * c
    decreases c
  {
    if c > 0 {
      MulLe(a, b, c - 1);
      assert a * c == a * (c - 1) + a && b * c == b * (c - 1) + b;
    }
  }

  /** Passing the test means the live keys really fit in one node fewer, each
      node holding no more than the target leaves room for after its header. */
  lemma FitsInFewer(g: Geometry, ns: seq<Node>)
    requires GeometryOk(g) && WorthCoalescing(g, ns)
    ensures g.hdrU64s <= Budget(g) * g.blockU64s
    ensures LiveU64s(ns) <= (Budget(g) * g.blockU64s - g.hdrU64s) * (|ns| - 1)
  {
    var n: nat := |ns| - 1;
    var live := LiveU64s(ns);
    var c := CeilDiv(live, n);
    var r := Blocks(g, c);
    var room := Budget(g) * g.blockU64s;
    MulLe(r, Budget(g), g.blockU64s);
    assert g.hdrU64s + c <= room;
    MulLe(c, room - g.hdrU64s, n);
    assert live <= c * n;
  }

  // ---------------------------------------------------------------------------
  // Redistribution (lines 1304-1362)

  /** How many leading keys of ks the loop of lines 1314-1322 takes into a node
      that already holds base u64s: it stops at the first key that would carry
      that node past the target. */
  ghost function FitLen(g: Geometry, base: nat, ks: seq<BKey>, j: nat): (r: nat)
    requires GeometryOk(g) && j <= |ks|
    ensures j <= r <= |ks|
    ensures forall m :: j < m <= r ==> Blocks(g, base + Size(ks[..m])) <= Budget(g)
    ensures r < |ks| ==> Blocks(g, base + Size(ks[..r + 1])) > Budget(g)
    decreases |ks| - j
  {
    if j < |ks| && Blocks(g, base + Size(ks[..j + 1])) <= Budget(g) then FitLen(g, base, ks, j + 1) else j
  }

  /** The key-counting loop of lines 1314-1322. */
  method FitCount(g: Geometry, base: nat, ks: seq<BKey>) returns (j: nat, u64s: nat)
    requires GeometryOk(g)
    ensures j == FitLen(g, base, ks, 0) && u64s == Size(ks[..j])
  {
    j, u64s := 0, 0;
    assert ks[..0] == [];
    while j < |ks| && Blocks(g, base + u64s + ks[j].u64s) <= Budget(g)
      invariant j <= |ks| && u64s == Size(ks[..j])
      invariant FitLen(g, base, ks, j) == FitLen(g, base, ks, 0)
      decreases |ks| - j
    {
      assert ks[..j + 1][..j] == ks[..j];
      u64s := u64s + ks[j].u64s;
      j := j + 1;
    }
    if j < |ks| {
      assert ks[..j + 1][..j] == ks[..j];
    }
  }

  /** How many keys of n2 = s[i - 1] the counting loop takes for n1 = s[i]. */
  ghost function Taken(g: Geometry, s: seq<Node>, i: nat): nat
    requires GeometryOk(g) && 0 < i < |s|
  {
    FitLen(g, Size(s[i].keys), s[i - 1].keys, 0)
  }

  /** Line 1324: what was taken is all of n2, so n2 merges whole into n1. */
  ghost predicate Merges(g: Geometry, s: seq<Node>, i: nat)
    requires GeometryOk(g) && 0 < i < |s|
  {
    Size(s[i - 1].keys[..Taken(g, s, i)]) == Size(s[i - 1].keys)
  }

  /** Line 1339: only a non-empty part of n2 moves into n1. */
  ghost predicate MovesPart(g: Geometry, s: seq<Node>, i: nat)
    requires GeometryOk(g) && 0 < i < |s|
  {
    !Merges(g, s, i) && Size(s[i - 1].keys[..Taken(g, s, i)]) > 0
  }

  /** A partial move takes some keys of n2 and leaves some. */
  lemma PartBounds(g: Geometry, s: seq<Node>, i: nat)
    requires GeometryOk(g) && 0 < i < |s| && MovesPart(g, s, i)
    ensures 0 < Taken(g, s, i) < |s[i - 1].keys|
  {
    var ks := s[i - 1].keys;
    assert ks[..|ks|] == ks;
    assert ks[..0] == [];
  }

  /** n1 after taking all of n2 (lines 1324-1330). */
  function Merged(n1: Node, n2: Node): Node {
    n1.(maxKey := n2.maxKey, keys := n1.keys + n2.keys)
  }

  /** n1 after taking the first j keys of n2 (lines 1345-1352). */
  function Grown(n1: Node, n2: Node, j: nat): Node
    requires 0 < j <= |n2.keys|
  {
    n1.(maxKey := n2.keys[j - 1].pos, keys := n1.keys + n2.keys[..j])
  }

  /** n2 after giving its first j keys away (lines 1348 and 1354-1357). */
  function Shrunk(n2: Node, j: nat): Node
    requires 0 < j <= |n2.keys| && n2.keys[j - 1].pos < PosMax
  {
    n2.(minKey := Successor(n2.keys[j - 1].pos), keys := n2.keys[j..])
  }

  /** One turn of the loop of lines 1304-1362, between n1 = s[i] and n2 = s[i - 1]. */
  ghost function Step(g: Geometry, s: seq<Node>, i: nat): seq<Node>
    requires GeometryOk(g) && 0 < i < |s| && WellFormed(s)
  {
    if Merges(g, s, i) then
      s[..i - 1] + [Merged(s[i], s[i - 1])] + s[i + 1..]
    else if MovesPart(g, s, i) then
      PartBounds(g, s, i);
      var j := Taken(g, s, i);
      assert NodeOk(s[i - 1]) && s[i - 1].keys[j - 1].pos < s[i - 1].keys[j].pos;
      s[i := Grown(s[i], s[i - 1], j)][i - 1 := Shrunk(s[i - 1], j)]
    else s
  }

  /** Keys taken from the front of the higher node are all above the lower node. */
  lemma JoinOk(n1: Node, n2: Node, ks: seq<BKey>, max: Pos)
    requires NodeOk(n1) && NodeOk(n2) && Adjacent(n1, n2)
    requires 0 < |ks| <= |n2.keys| && ks == n2.keys[..|ks|] && max == ks[|ks| - 1].pos
    ensures NodeOk(n1.(maxKey := max, keys := n1.keys + ks))
  {
    var m := n1.(maxKey := max, keys := n1.keys + ks);
    forall a, b | 0 <= a < b < |m.keys| ensures m.keys[a].pos < m.keys[b].pos {
      if b >= |n1.keys| && a < |n1.keys| {
        assert m.keys[b] == n2.keys[b - |n1.keys|];
      } else if a >= |n1.keys| {
        assert m.keys[a] == n2.keys[a - |n1.keys|] && m.keys[b] == n2.keys[b - |n1.keys|];
      }
    }
    forall k | 0 <= k < |m.keys| ensures m.minKey <= m.keys[k].pos <= m.maxKey {
      if k >= |n1.keys| {
        assert m.keys[k] == n2.keys[k - |n1.keys|];
        if k - |n1.keys| < |ks| - 1 {
          assert n2.keys[k - |n1.keys|].pos < n2.keys[|ks| - 1].pos;
        }
      }
    }
  }

  lemma MergedOk(n1: Node, n2: Node)
    requires NodeOk(n1) && NodeOk(n2) && Adjacent(n1, n2)
    ensures NodeOk(Merged(n1, n2))
  {
    if n2.keys == [] {
      assert n1.keys + n2.keys == n1.keys;
    } else {
      assert n2.keys[..|n2.keys|] == n2.keys;
      JoinOk(n1, n2, n2.keys, n2.keys[|n2.keys| - 1].pos);
      var m := Merged(n1, n2);
      forall k | 0 <= k < |m.keys| ensures m.minKey <= m.keys[k].pos <= m.maxKey {
        if k >= |n1.keys| {
          assert m.keys[k] == n2.keys[k - |n1.keys|];
        }
      }
    }
  }

  lemma SplitOk(n1: Node, n2: Node, j: nat)
    requires NodeOk(n1) && NodeOk(n2) && Adjacent(n1, n2) && 0 < j < |n2.keys|
    ensures n2.keys[j - 1].pos < PosMax
    ensures NodeOk(Grown(n1, n2, j)) && NodeOk(Shrunk(n2, j)) && Adjacent(Grown(n1, n2, j), Shrunk(n2, j))
  {
    assert n2.keys[j - 1].pos < n2.keys[j].pos;
    JoinOk(n1, n2, n2.keys[..j], n2.keys[j - 1].pos);
    var m2 := Shrunk(n2, j);
    forall k | 0 <= k < |m2.keys| ensures m2.minKey <= m2.keys[k].pos <= m2.maxKey {
      assert m2.keys[k] == n2.keys[j + k];
      if k > 0 {
        assert n2.keys[j].pos < n2.keys[j + k].pos;
      }
    }
    forall a, b | 0 <= a < b < |m2.keys| ensures m2.keys[a].pos < m2.keys[b].pos {
      assert m2.keys[a] == n2.keys[j + a] && m2.keys[b] == n2.keys[j + b];
    }
  }

  /** Putting m in place of the pair s[i - 1], s[i] keeps a well-formed window
      well formed when m spans the pair. */
  lemma SpliceOneOk(s: seq<Node>, i: nat, m: Node)
    requires WellFormed(s) && 0 < i < |s| && NodeOk(m)
    requires m.minKey == s[i].minKey && m.maxKey == s[i - 1].maxKey && m.level == s[i].level
    ensures WellFormed(s[..i - 1] + [m] + s[i + 1..])
  {
    var r := s[..i - 1] + [m] + s[i + 1..];
    assert forall k :: 0 <= k < |r| ==> r[k] == if k < i - 1 then s[k] else if k == i - 1 then m else s[k + 1];
    forall k | 0 < k < |r| ensures Adjacent(r[k], r[k - 1]) {
      if k == i - 1 {
        assert Adjacent(s[i - 1], s[i - 2]);
      } else if k == i {
        assert Adjacent(s[i + 1], s[i]);
      } else if k > i {
        assert Adjacent(s[k + 1], s[k]);
      }
    }
    forall k | 0 <= k < |r| ensures NodeOk(r[k]) && r[k].level == r[0].level {
      if k >= i {
        assert NodeOk(s[k + 1]);
      }
    }
  }

  /** Putting m2, m1 in place of the pair keeps the window well formed when they
      meet each other and span the pair. */
  lemma SplicePairOk(s: seq<Node>, i: nat, m1: Node, m2: Node)
    requires WellFormed(s) && 0 < i < |s| && NodeOk(m1) && NodeOk(m2) && Adjacent(m1, m2)
    requires m1.minKey == s[i].minKey && m2.maxKey == s[i - 1].maxKey
    requires m1.level == s[i].level && m2.level == s[i - 1].level
    ensures WellFormed(s[i := m1][i - 1 := m2])
  {
    var r := s[i := m1][i - 1 := m2];
    forall k | 0 < k < |r| ensures Adjacent(r[k], r[k - 1]) {
      if k == i - 1 {
        assert Adjacent(s[i - 1], s[i - 2]);
      } else if k == i + 1 {
        assert Adjacent(s[i + 1], s[i]);
      } else if k > i + 1 || k < i - 1 {
        assert Adjacent(s[k], s[k - 1]);
      }
    }
  }

  lemma FlattenSplice(s: seq<Node>, i: nat, mid: seq<Node>)
    requires 0 < i < |s|
    ensures Flatten(s[..i - 1] + mid + s[i + 1..]) == Flatten(s[i + 1..]) + Flatten(mid) + Flatten(s[..i - 1])
  {
    FlattenSplit(s[..i - 1] + mid, s[i + 1..]);
    FlattenSplit(s[..i - 1], mid);
  }

  lemma FlattenOne(m: Node)
    ensures Flatten([m]) == m.keys
  {
    assert [m][1..] == [];
  }

  lemma FlattenTwo(a: Node, b: Node)
    ensures Flatten([a, b]) == b.keys + a.keys
  {
    assert [a, b][1..] == [b];
    FlattenOne(b);
  }

  lemma StepPreservesMerge(g: Geometry, s: seq<Node>, i: nat)
    requires GeometryOk(g) && 0 < i < |s| && WellFormed(s) && Merges(g, s, i)
    ensures var r := Step(g, s, i);
      && WellFormed(r) && Flatten(r) == Flatten(s)
      && |r| == |s| - 1 && r[0].maxKey == s[0].maxKey && r[|r| - 1].minKey == s[|s| - 1].minKey
  {
    var m := Merged(s[i], s[i - 1]);
    var r := s[..i - 1] + [m] + s[i + 1..];
    assert Step(g, s, i) == r;
    MergedOk(s[i], s[i - 1]);
    SpliceOneOk(s, i, m);
    assert s == s[..i - 1] + [s[i - 1], s[i]] + s[i + 1..];
    FlattenSplice(s, i, [s[i - 1], s[i]]);
    FlattenSplice(s, i, [m]);
    FlattenOne(m);
    FlattenTwo(s[i - 1], s[i]);
    assert forall k :: 0 <= k < |r| ==> r[k] == if k < i - 1 then s[k] else if k == i - 1 then m else s[k + 1];
  }

  lemma StepPreservesPart(g: Geometry, s: seq<Node>, i: nat)
    requires GeometryOk(g) && 0 < i < |s| && WellFormed(s) && MovesPart(g, s, i)
    ensures var r := Step(g, s, i);
      && WellFormed(r) && Flatten(r) == Flatten(s)
      && |r| == |s| && r[0].maxKey == s[0].maxKey && r[|r| - 1].minKey == s[|s| - 1].minKey
  {
    PartBounds(g, s, i);
    var j := Taken(g, s, i);
    var n1 := s[i];
    var n2 := s[i - 1];
    SplitOk(n1, n2, j);
    var m1 := Grown(n1, n2, j);
    var m2 := Shrunk(n2, j);
    var r := s[i := m1][i - 1 := m2];
    assert Step(g, s, i) == r;
    SplicePairOk(s, i, m1, m2);
    assert s == s[..i - 1] + [n2, n1] + s[i + 1..];
    assert r == s[..i - 1] + [m2, m1] + s[i + 1..];
    FlattenSplice(s, i, [n2, n1]);
    FlattenSplice(s, i, [m2, m1]);
    FlattenTwo(n2, n1);
    FlattenTwo(m2, m1);
    SplitJoin(n1.keys, n2.keys, j);
  }

  lemma SplitJoin(a: seq<BKey>, b: seq<BKey>, j: nat)
    requires j <= |b|
    ensures (a + b[..j]) + b[j..] == a + b
  {
    assert b[..j] + b[j..] == b;
  }

  /** One turn keeps the window well formed, every key in its order, and the
      range the window covers; it never adds a node and removes at most one. */
  lemma StepPreserves(g: Geometry, s: seq<Node>, i: nat)
    requires GeometryOk(g) && 0 < i < |s| && WellFormed(s)
    ensures var r := Step(g, s, i);
      && WellFormed(r) && Flatten(r) == Flatten(s)
      && |s| - 1 <= |r| <= |s| && r[0].maxKey == s[0].maxKey && r[|r| - 1].minKey == s[|s| - 1].minKey
  {
    if Merges(g, s, i) {
      StepPreservesMerge(g, s, i);
    } else if MovesPart(g, s, i) {
      StepPreservesPart(g, s, i);
    }
  }

  /** Lines 1324-1362: after a full merge n1 ends where n2 ended, holds n1's keys
      followed by n2's, and n2 has left the array; after a partial move n1 gained
      keys and ends at the last of them, and n2 starts right after it; otherwise
      nothing moves. */
  lemma StepBoundaries(g: Geometry, s: seq<Node>, i: nat)
    requires GeometryOk(g) && 0 < i < |s| && WellFormed(s)
    ensures var r := Step(g, s, i);
      && (Merges(g, s, i) ==>
            && |r| == |s| - 1 && r[i - 1].maxKey == s[i - 1].maxKey && r[i - 1].minKey == s[i].minKey
            && r[i - 1].keys == s[i].keys + s[i - 1].keys
            && r[..i - 1] == s[..i - 1] && r[i..] == s[i + 1..])
      && (MovesPart(g, s, i) ==>
            && |r| == |s| && |r[i].keys| > |s[i].keys|
            && r[i].maxKey == r[i].keys[|r[i].keys| - 1].pos
            && r[i].maxKey < PosMax && r[i - 1].minKey == Successor(r[i].maxKey)
            && r[i].keys + r[i - 1].keys == s[i].keys + s[i - 1].keys
            && (forall k :: 0 <= k < |s| && k != i && k != i - 1 ==> r[k] == s[k]))
      && (!Merges(g, s, i) && !MovesPart(g, s, i) ==> r == s)
  {
    if Merges(g, s, i) {
      MergeBoundaries(g, s, i);
    } else if MovesPart(g, s, i) {
      PartBoundaries(g, s, i);
    }
  }

  lemma MergeBoundaries(g: Geometry, s: seq<Node>, i: nat)
    requires GeometryOk(g) && 0 < i < |s| && WellFormed(s) && Merges(g, s, i)
    ensures var r := Step(g, s, i);
      && |r| == |s| - 1 && r[i - 1].maxKey == s[i - 1].maxKey && r[i - 1].minKey == s[i].minKey
      && r[i - 1].keys == s[i].keys + s[i - 1].keys
      && r[..i - 1] == s[..i - 1] && r[i..] == s[i + 1..]
  {
    var r := s[..i - 1] + [Merged(s[i], s[i - 1])] + s[i + 1..];
    assert Step(g, s, i) == r;
    assert r[..i - 1] == s[..i - 1] && r[i..] == s[i + 1..];
  }

  lemma PartBoundaries(g: Geometry, s: seq<Node>, i: nat)
    requires GeometryOk(g) && 0 < i < |s| && WellFormed(s) && MovesPart(g, s, i)
    ensures var r := Step(g, s, i);
      && |r| == |s| && |r[i].keys| > |s[i].keys|
      && r[i].maxKey == r[i].keys[|r[i].keys| - 1].pos
      && r[i].maxKey < PosMax && r[i - 1].minKey == Successor(r[i].maxKey)
      && r[i].keys + r[i - 1].keys == s[i].keys + s[i - 1].keys
      && (forall k :: 0 <= k < |s| && k != i && k != i - 1 ==> r[k] == s[k])
  {
    PartBounds(g, s, i);
    var j := Taken(g, s, i);
    SplitOk(s[i], s[i - 1], j);
    var m1 := Grown(s[i], s[i - 1], j);
    var m2 := Shrunk(s[i - 1], j);
    assert Step(g, s, i) == s[i := m1][i - 1 := m2];
    assert m1.keys[|m1.keys| - 1] == s[i - 1].keys[j - 1];
    SplitJoin(s[i].keys, s[i - 1].keys, j);
  }

  /** Lines 1314-1322: keys go into the lower node only while it stays within the
      target; a merge of a higher node whose keys take no room leaves the size of
      the lower one alone. */
  lemma StepBudget(g: Geometry, s: seq<Node>, i: nat)
    requires GeometryOk(g) && 0 < i < |s| && WellFormed(s)
    ensures var r := Step(g, s, i);
      && (Merges(g, s, i) ==> Blocks(g, Size(r[i - 1].keys)) <= Budget(g) || Size(r[i - 1].keys) == Size(s[i].keys))
      && (MovesPart(g, s, i) ==> Blocks(g, Size(r[i].keys)) <= Budget(g))
  {
    if Merges(g, s, i) {
      assert Step(g, s, i)[i - 1] == Merged(s[i], s[i - 1]);
      MergeBudget(g, s, i);
    } else if MovesPart(g, s, i) {
      PartBounds(g, s, i);
      assert Step(g, s, i)[i] == Grown(s[i], s[i - 1], Taken(g, s, i));
      PartBudget(g, s, i);
    }
  }

  /** A whole merge either fits or adds nothing to n1. */
  lemma MergeBudget(g: Geometry, s: seq<Node>, i: nat)
    requires GeometryOk(g) && 0 < i < |s| && Merges(g, s, i)
    ensures var m := Merged(s[i], s[i - 1]);
      Blocks(g, Size(m.keys)) <= Budget(g) || Size(m.keys) == Size(s[i].keys)
  {
    var n1 := s[i];
    var n2 := s[i - 1];
    SizeAppend(n1.keys, n2.keys);
    if Taken(g, s, i) == 0 {
      assert n2.keys[..0] == [];
    }
  }

  /** The keys a partial move hands to n1 keep it within the target. */
  lemma PartBudget(g: Geometry, s: seq<Node>, i: nat)
    requires GeometryOk(g) && 0 < i < |s| && 0 < Taken(g, s, i) <= |s[i - 1].keys|
    ensures Blocks(g, Size(Grown(s[i], s[i - 1], Taken(g, s, i)).keys)) <= Budget(g)
  {
    var j := Taken(g, s, i);
    SizeAppend(s[i].keys, s[i - 1].keys[..j]);
  }

  /** The whole loop of lines 1304-1362, run from position i down to 1. */
  ghost function Redistribute(g: Geometry, s: seq<Node>, i: nat): (r: seq<Node>)
    requires GeometryOk(g) && WellFormed(s) && i < |s|
    ensures WellFormed(r) && Flatten(r) == Flatten(s)
    ensures |s| - i <= |r| <= |s|
    ensures r[0].maxKey == s[0].maxKey && r[|r| - 1].minKey == s[|s| - 1].minKey && r[0].level == s[0].level
    decreases i
  {
    if i == 0 then s
    else
      StepPreserves(g, s, i);
      StepLevel(g, s, i);
      Redistribute(g, Step(g, s, i), i - 1)
  }

  lemma StepLevel(g: Geometry, s: seq<Node>, i: nat)
    requires GeometryOk(g) && 0 < i < |s| && WellFormed(s)
    ensures Step(g, s, i)[0].level == s[0].level
  {
    if Merges(g, s, i) {
      assert Step(g, s, i)[0].level == s[if i == 1 then 1 else 0].level;
    } else if MovesPart(g, s, i) {
      PartBounds(g, s, i);
    }
  }

  /** The memmove of lines 1339-1342: entries i .. n - 1 move down one place. */
  method ShiftDown(a: array<Option<Node>>, i: nat, n: nat)
    requires 0 < i < n <= a.Length
    modifies a
    ensures forall k :: 0 <= k < a.Length ==> a[k] == (if i - 1 <= k < n - 1 then old(a[k + 1]) else old(a[k]))
  {
    var k := i - 1;
    while k < n - 1
      invariant i - 1 <= k <= n - 1
      invariant forall m :: 0 <= m < a.Length ==> a[m] == (if i - 1 <= m < k then old(a[m + 1]) else old(a[m]))
    {
      a[k] := a[k + 1];
      k := k + 1;
    }
  }

  /** Lines 1324-1337: n2 goes whole into n1, which then moves down into n2's
      slot as the entries above it shift down and the last slot is emptied. */
  method MergeDown(nodes: array<Option<Node>>, i: nat, nr: nat, ghost g: Geometry, ghost cur: seq<Node>)
    requires GeometryOk(g) && 0 < i < nr == |cur| <= nodes.Length && WellFormed(cur) && Holds(nodes[..], cur)
    requires Merges(g, cur, i)
    modifies nodes
    ensures Holds(nodes[..], Step(g, cur, i)) && nodes[nr - 1].None?
    ensures forall k :: nr <= k < nodes.Length ==> nodes[k] == old(nodes[k])
  {
    var n1 := nodes[i].value;
    var n2 := nodes[i - 1].value;
    nodes[i] := Some(n1.(maxKey := n2.maxKey, keys := n1.keys + n2.keys));
    ShiftDown(nodes, i, nr);
    nodes[nr - 1] := None;
    ghost var r := cur[..i - 1] + [Merged(cur[i], cur[i - 1])] + cur[i + 1..];
    assert Step(g, cur, i) == r;
    forall k | 0 <= k < |r| ensures nodes[k] == Some(r[k]) {
      assert r[k] == if k < i - 1 then cur[k] else if k == i - 1 then Merged(cur[i], cur[i - 1]) else cur[k + 1];
    }
  }

  /** Lines 1339-1353: the first j keys of n2 move into n1, which now ends at the
      last of them, and n2 starts right after it. */
  method MovePart(nodes: array<Option<Node>>, i: nat, j: nat, ghost g: Geometry, ghost cur: seq<Node>)
    requires GeometryOk(g) && 0 < i < |cur| <= nodes.Length && WellFormed(cur) && Holds(nodes[..], cur)
    requires MovesPart(g, cur, i) && j == Taken(g, cur, i)
    modifies nodes
    ensures Holds(nodes[..], Step(g, cur, i))
    ensures forall k :: |cur| <= k < nodes.Length ==> nodes[k] == old(nodes[k])
  {
    PartBounds(g, cur, i);
    SplitOk(cur[i], cur[i - 1], j);
    var n1 := nodes[i].value;
    var n2 := nodes[i - 1].value;
    var last := n2.keys[j - 1].pos;
    nodes[i] := Some(n1.(maxKey := last, keys := n1.keys + n2.keys[..j]));
    nodes[i - 1] := Some(n2.(minKey := Successor(last), keys := n2.keys[j..]));
    assert Step(g, cur, i) == cur[i := Grown(cur[i], cur[i - 1], j)][i - 1 := Shrunk(cur[i - 1], j)];
  }

  /** One turn of the loop of lines 1304-1362 on the array. */
  method Turn(g: Geometry, nodes: array<Option<Node>>, i: nat, nr: nat, ghost cur: seq<Node>) returns (nr': nat)
    requires GeometryOk(g) && 0 < i < nr == |cur| <= nodes.Length && WellFormed(cur) && Holds(nodes[..], cur)
    modifies nodes
    ensures nr' == |Step(g, cur, i)| && Holds(nodes[..], Step(g, cur, i))
    ensures forall k :: nr' <= k < nodes.Length ==> nodes[k] == (if k < nr then None else old(nodes[k]))
  {
    var n1 := nodes[i].value;
    var n2 := nodes[i - 1].value;
    var j, u64s := FitCount(g, Size(n1.keys), n2.keys);
    nr' := nr;
    if u64s == Size(n2.keys) {
      MergeBoundaries(g, cur, i);
      MergeDown(nodes, i, nr, g, cur);
      nr' := nr - 1;
    } else if u64s > 0 {
      MovePart(nodes, i, j, g, cur);
    } else {
      assert !Merges(g, cur, i) && !MovesPart(g, cur, i);
    }
  }

  /** The redistribution loop of lines 1304-1362 over the replacement nodes
      nodes[0 .. nrOld - 1]: it leaves the nodes Redistribute computes at the head of
      the array and empties the slots it frees. */
  method Redistribution(g: Geometry, nodes: array<Option<Node>>, nrOld: nat, ghost s0: seq<Node>) returns (nr: nat)
    requires GeometryOk(g) && nrOld == |s0| > 0 && WellFormed(s0) && Holds(nodes[..], s0)
    modifies nodes
    ensures nr == |Redistribute(g, s0, nrOld - 1)| && Holds(nodes[..], Redistribute(g, s0, nrOld - 1))
    ensures forall k :: nr <= k < nodes.Length ==> nodes[k] == (if k < nrOld then None else old(nodes[k]))
  {
    nr := nrOld;
    var i: nat := nrOld - 1;
    ghost var cur := s0;
    while i > 0
      invariant i < nr == |cur| <= nrOld && WellFormed(cur) && Holds(nodes[..], cur)
      invariant Redistribute(g, cur, i) == Redistribute(g, s0, nrOld - 1)
      invariant forall k :: nr <= k < nodes.Length ==> nodes[k] == (if k < nrOld then None else old(nodes[k]))
      decreases i
    {
      StepPreserves(g, cur, i);
      nr := Turn(g, nodes, i, nr, cur);
      cur := Step(g, cur, i);
      i := i - 1;
    }
  }

  // ---------------------------------------------------------------------------
  // Counting the window (lines 1242-1245)

  /** The loop of lines 1243-1244: the nodes at the head of the window and their
      live u64s. */
  method CountLive(w: array<Option<Node>>) returns (nr: nat, u64s: nat)
    requires w.Length == MergeNodes
    ensures nr == |Leading(w[..])| && u64s == LiveU64s(Leading(w[..]))
  {
    ghost var ns := Leading(w[..]);
    nr, u64s := 0, 0;
    assert ns[..0] == [];
    while nr < MergeNodes && w[nr].Some?
      invariant nr <= |ns| && u64s == LiveU64s(ns[..nr])
      decreases MergeNodes - nr
    {
      assert ns[..nr + 1][..nr] == ns[..nr];
      u64s := u64s + Size(w[nr].value.keys);
      nr := nr + 1;
    }
    assert ns[..nr] == ns;
  }

  // ---------------------------------------------------------------------------
  // Keys for the parent (lines 1386-1409)

  /** A key queued for the parent node: a whiteout deleting an old node's key, or
      the key of a new node; either sits at the node's max_key. */
  datatype Entry = Entry(pos: Pos, whiteout: bool)

  predicate StrictlyOrdered(l: seq<Entry>) {
    forall a, b :: 0 <= a < b < |l| ==> l[a].pos < l[b].pos
  }

  /** No entry of l sits at p. */
  predicate PosFree(l: seq<Entry>, p: Pos) {
    forall k :: 0 <= k < |l| ==> l[k].pos != p
  }

  /** No two entries sit at one position. */
  predicate DistinctPos(l: seq<Entry>) {
    forall a, b :: 0 <= a < b < |l| ==> l[a].pos != l[b].pos
  }

  lemma HeadBelow(l: seq<Entry>, e: Entry, t: seq<Entry>)
    requires |l| > 0 && multiset(t) == multiset(l[1..]) + multiset{e}
    ensures StrictlyOrdered(l) && l[0].pos < e.pos ==> forall k :: 0 <= k < |t| ==> l[0].pos < t[k].pos
  {
    if StrictlyOrdered(l) && l[0].pos < e.pos {
      forall k | 0 <= k < |t| ensures l[0].pos < t[k].pos {
        assert t[k] in multiset(t);
        if t[k] != e {
          assert t[k] in multiset(l[1..]);
          var m :| 0 <= m < |l| - 1 && l[1..][m] == t[k];
          assert l[m + 1] == t[k];
        }
      }
    }
  }

  /** bch2_keylist_add_in_order (keylist.c is not part of this model): e goes in
      front of the first entry above it. */
  function InsertInOrder(l: seq<Entry>, e: Entry): (r: seq<Entry>)
    ensures multiset(r) == multiset(l) + multiset{e}
    decreases |l|
  {
    if l == [] || e.pos < l[0].pos then
      [e] + l
    else
      assert l == [l[0]] + l[1..];
      [l[0]] + InsertInOrder(l[1..], e)
  }

  /** Adding in order keeps a list strictly ordered when no entry sits at the
      new entry's position. */
  lemma {:induction false} InsertStrict(l: seq<Entry>, e: Entry)
    requires StrictlyOrdered(l) && PosFree(l, e.pos)
    ensures StrictlyOrdered(InsertInOrder(l, e))
    decreases |l|
  {
    if l != [] && !(e.pos < l[0].pos) {
      InsertStrict(l[1..], e);
      HeadBelow(l, e, InsertInOrder(l[1..], e));
    }
  }

  /** The entries of es added one after the other. */
  function AddAll(l: seq<Entry>, es: seq<Entry>): (r: seq<Entry>)
    ensures multiset(r) == multiset(l) + multiset(es)
    decreases |es|
  {
    if es == [] then l
    else
      assert es == es[..|es| - 1] + [es[|es| - 1]];
      InsertInOrder(AddAll(l, es[..|es| - 1]), es[|es| - 1])
  }

  /** Some new node ends at p. */
  predicate Reused(news: seq<Node>, p: Pos) {
    exists j :: 0 <= j < |news| && news[j].maxKey == p
  }

  /** Some old node ends at p. */
  predicate EndsAt(olds: seq<Node>, p: Pos) {
    exists i :: 0 <= i < |olds| && olds[i].maxKey == p
  }

  /** The whiteouts of lines 1386-1400, in old-node order. */
  function Deletes(olds: seq<Node>, news: seq<Node>): seq<Entry>
    decreases |olds|
  {
    if olds == [] then []
    else
      var o := olds[|olds| - 1];
      Deletes(olds[..|olds| - 1], news) + (if Reused(news, o.maxKey) then [] else [Entry(o.maxKey, true)])
  }

  /** The keys of the new nodes, in order (lines 1408-1409). */
  function NewKeys(news: seq<Node>): (r: seq<Entry>)
    ensures |r| == |news| && forall k :: 0 <= k < |news| ==> r[k] == Entry(news[k].maxKey, false)
  {
    seq(|news|, k requires 0 <= k < |news| => Entry(news[k].maxKey, false))
  }

  /** The keylist handed to the parent update: the whiteouts, then the new keys,
      each added in order. */
  function Keylist(olds: seq<Node>, news: seq<Node>): seq<Entry> {
    AddAll(AddAll([], Deletes(olds, news)), NewKeys(news))
  }

  /** Lines 1386-1400: a whiteout is queued exactly for the positions where an old
      node ends and no new node does. */
  lemma {:induction false} DeletesExactly(olds: seq<Node>, news: seq<Node>, e: Entry)
    ensures e in Deletes(olds, news) <==> e.whiteout && EndsAt(olds, e.pos) && !Reused(news, e.pos)
    decreases |olds|
  {
    if olds != [] {
      var init := olds[..|olds| - 1];
      var o := olds[|olds| - 1];
      DeletesExactly(init, news, e);
      if EndsAt(olds, e.pos) && o.maxKey != e.pos {
        var i :| 0 <= i < |olds| && olds[i].maxKey == e.pos;
        assert init[i] == olds[i];
      }
      if EndsAt(init, e.pos) {
        var i :| 0 <= i < |init| && init[i].maxKey == e.pos;
        assert olds[i] == init[i];
      }
      assert olds[|olds| - 1].maxKey == o.maxKey;
    }
  }

  /** Old nodes ending at distinct positions give whiteouts at distinct positions. */
  lemma {:induction false} DeletesDistinct(olds: seq<Node>, news: seq<Node>)
    requires forall a, b :: 0 <= a < b < |olds| ==> olds[a].maxKey != olds[b].maxKey
    ensures DistinctPos(Deletes(olds, news))
    decreases |olds|
  {
    if olds != [] {
      var init := olds[..|olds| - 1];
      var o := olds[|olds| - 1];
      DeletesDistinct(init, news);
      var d := Deletes(init, news);
      forall k | 0 <= k < |d| ensures d[k].pos != o.maxKey {
        DeletesExactly(init, news, d[k]);
        var i :| 0 <= i < |init| && init[i].maxKey == d[k].pos;
        assert olds[i] == init[i];
      }
    }
  }

  /** Adding entries at distinct positions free in l keeps l strictly ordered. */
  lemma {:induction false} AddAllStrict(l: seq<Entry>, es: seq<Entry>)
    requires StrictlyOrdered(l) && DistinctPos(es)
    requires forall a, b :: 0 <= a < |l| && 0 <= b < |es| ==> l[a].pos != es[b].pos
    ensures StrictlyOrdered(AddAll(l, es))
    decreases |es|
  {
    if es != [] {
      var init := es[..|es| - 1];
      var e := es[|es| - 1];
      AddAllStrict(l, init);
      var t := AddAll(l, init);
      forall k | 0 <= k < |t| ensures t[k].pos != e.pos {
        assert t[k] in multiset(t);
        if t[k] in multiset(l) {
          var a :| 0 <= a < |l| && l[a] == t[k];
        } else {
          assert t[k] in multiset(init);
          var b :| 0 <= b < |init| && init[b] == t[k];
          assert es[b] == init[b];
        }
      }
      InsertStrict(t, e);
    }
  }

  /** In a well-formed window each node ends below the one before it. */
  lemma {:induction false} EndsDescending(s: seq<Node>, a: nat, b: nat)
    requires WellFormed(s) && a < b < |s|
    ensures s[b].maxKey < s[a].maxKey
    decreases b - a
  {
    assert Adjacent(s[b], s[b - 1]) && NodeOk(s[b - 1]);
    if a < b - 1 {
      EndsDescending(s, a, b - 1);
    }
  }

  /** Lines 1378-1409: the keylist holds the whiteouts and the new
      keys, and, no whiteout sharing a position with a new key, it is strictly
      ordered, as the parent update requires. */
  lemma KeylistOrdered(olds: seq<Node>, news: seq<Node>)
    requires WellFormed(olds) && WellFormed(news)
    ensures StrictlyOrdered(Keylist(olds, news))
    ensures multiset(Keylist(olds, news)) == multiset(Deletes(olds, news)) + multiset(NewKeys(news))
  {
    forall a, b | 0 <= a < b < |olds| ensures olds[a].maxKey != olds[b].maxKey {
      EndsDescending(olds, a, b);
    }
    var d := Deletes(olds, news);
    DeletesDistinct(olds, news);
    AddAllStrict([], d);
    var l1 := AddAll([], d);
    var nk := NewKeys(news);
    forall a, b | 0 <= a < b < |nk| ensures nk[a].pos != nk[b].pos {
      EndsDescending(news, a, b);
    }
    forall a, b | 0 <= a < |l1| && 0 <= b < |nk| ensures l1[a].pos != nk[b].pos {
      assert l1[a] in multiset(l1);
      assert l1[a] in d;
      DeletesExactly(olds, news, l1[a]);
    }
    AddAllStrict(l1, nk);
  }

  lemma DeletesSnoc(olds: seq<Node>, news: seq<Node>, i: nat)
    requires i < |olds|
    ensures Deletes(olds[..i + 1], news)
         == Deletes(olds[..i], news) + (if Reused(news, olds[i].maxKey) then [] else [Entry(olds[i].maxKey, true)])
  {
    assert olds[..i + 1][..i] == olds[..i];
  }

  lemma AddAllStep(l: seq<Entry>, es: seq<Entry>, i: nat)
    requires i < |es|
    ensures AddAll(l, es[..i + 1]) == InsertInOrder(AddAll(l, es[..i]), es[i])
  {
    assert es[..i + 1][..i] == es[..i];
  }

  lemma AddAllSnoc(l: seq<Entry>, es: seq<Entry>, e: Entry)
    ensures AddAll(l, es + [e]) == InsertInOrder(AddAll(l, es), e)
  {
    assert (es + [e])[..|es|] == es;
  }

  /** The inner search of lines 1391-1394: whether some new node ends at p. */
  method FindReused(nodes: array<Option<Node>>, nrNew: nat, ghost news: seq<Node>, p: Pos) returns (found: bool)
    requires Holds(nodes[..], news) && |news| == nrNew
    ensures found <==> Reused(news, p)
  {
    var j := 0;
    while j < nrNew && nodes[j].value.maxKey != p
      invariant j <= nrNew && forall m :: 0 <= m < j ==> news[m].maxKey != p
    {
      j := j + 1;
    }
    found := j < nrNew;
    if found {
      assert news[j].maxKey == p;
    }
  }

  /** The whiteout loop of lines 1386-1400. */
  method QueueDeletes(window: array<Option<Node>>, nrOld: nat, nodes: array<Option<Node>>, nrNew: nat,
                      ghost olds: seq<Node>, ghost news: seq<Node>) returns (l: seq<Entry>)
    requires Holds(window[..], olds) && |olds| == nrOld && Holds(nodes[..], news) && |news| == nrNew
    ensures l == AddAll([], Deletes(olds, news))
  {
    l := [];
    var i := 0;
    assert olds[..0] == [];
    while i < nrOld
      invariant i <= nrOld && l == AddAll([], Deletes(olds[..i], news))
    {
      var p := window[i].value.maxKey;
      var found := FindReused(nodes, nrNew, news, p);
      DeletesSnoc(olds, news, i);
      if !found {
        AddAllSnoc([], Deletes(olds[..i], news), Entry(p, true));
        l := InsertInOrder(l, Entry(p, true));
      } else {
        assert Deletes(olds[..i], news) + [] == Deletes(olds[..i], news);
      }
      i := i + 1;
    }
    assert olds[..i] == olds;
  }

  /** The keylist loops of lines 1386-1409. */
  method QueueKeys(window: array<Option<Node>>, nrOld: nat, nodes: array<Option<Node>>, nrNew: nat,
                   ghost olds: seq<Node>, ghost news: seq<Node>) returns (l: seq<Entry>)
    requires Holds(window[..], olds) && |olds| == nrOld && Holds(nodes[..], news) && |news| == nrNew
    ensures l == Keylist(olds, news)
  {
    l := QueueDeletes(window, nrOld, nodes, nrNew, olds, news);
    ghost var dels := l;
    ghost var nk := NewKeys(news);
    var i := 0;
    assert nk[..0] == [];
    while i < nrNew
      invariant i <= nrNew && l == AddAll(dels, nk[..i])
    {
      AddAllStep(dels, nk, i);
      l := InsertInOrder(l, Entry(nodes[i].value.maxKey, false));
      i := i + 1;
    }
    assert nk[..i] == nk;
  }

  // ---------------------------------------------------------------------------
  // bch2_coalesce_nodes (lines 1227-1445)

  /** The window bch2_coalesce_nodes leaves: when the fit test passes and the update
      can be prepared, the first new node in slot 0 and the other old nodes' slots
      emptied; otherwise the window as it was. */
  ghost function Coalesced(g: Geometry, w: seq<Option<Node>>, ready: bool): seq<Option<Node>>
    requires GeometryOk(g) && |w| == MergeNodes && WellFormed(Leading(w))
  {
    var olds := Leading(w);
    if ready && WorthCoalescing(g, olds) then
      var news := Redistribute(g, olds, |olds| - 1);
      Replaced(w, |olds|, news[0])
    else w
  }

  /** The window with its first nr slots given up to the node first. */
  function Replaced(w: seq<Option<Node>>, nr: nat, first: Node): seq<Option<Node>>
    requires |w| == MergeNodes
  {
    seq(MergeNodes, k requires 0 <= k < MergeNodes => if k < nr then (if k == 0 then Some(first) else None) else w[k])
  }

  /** The keylist bch2_coalesce_nodes hands to the parent, or none. */
  ghost function CoalescedKeys(g: Geometry, w: seq<Option<Node>>, ready: bool): seq<Entry>
    requires GeometryOk(g) && |w| == MergeNodes && WellFormed(Leading(w))
  {
    var olds := Leading(w);
    if ready && WorthCoalescing(g, olds) then Keylist(olds, Redistribute(g, olds, |olds| - 1)) else []
  }

  /** bch2_coalesce_nodes on the window.  ready stands for the three preparations
      that can fail and make it return without change: the repacked keys fit the
      new format (lines 1262-1268), the keylist is allocated (lines 1270-1275) and
      the btree update is reserved (lines 1277-1288). */
  method CoalesceNodes(g: Geometry, window: array<Option<Node>>, ready: bool) returns (done: bool, keylist: seq<Entry>)
    requires GeometryOk(g) && window.Length == MergeNodes && WellFormed(Leading(window[..]))
    modifies window
    ensures done <==> ready && WorthCoalescing(g, Leading(old(window[..])))
    ensures window[..] == Coalesced(g, old(window[..]), ready)
    ensures keylist == CoalescedKeys(g, old(window[..]), ready)
  {
    ghost var w0 := window[..];
    ghost var olds := Leading(w0);
    var nr, u64s := CountLive(window);
    done, keylist := false, [];
    if nr <= 1 || Blocks(g, CeilDiv(u64s, nr - 1)) > Budget(g) || !ready {
      return;
    }
    done := true;
    keylist := Rebuild(g, window, nr, olds);
  }

  /** Lines 1291-1438, once the update is under way: the nodes are redistributed,
      the keylist is queued and the window takes the first new node. */
  method Rebuild(g: Geometry, window: array<Option<Node>>, nr: nat, ghost olds: seq<Node>) returns (keylist: seq<Entry>)
    requires GeometryOk(g) && window.Length == MergeNodes && Holds(window[..], olds) && |olds| == nr > 0
    requires WellFormed(olds)
    modifies window
    ensures var news := Redistribute(g, olds, nr - 1);
      window[..] == Replaced(old(window[..]), nr, news[0]) && keylist == Keylist(olds, news)
  {
    var nodes := CopyLeading(window, nr, olds);
    var nrNew := Redistribution(g, nodes, nr, olds);
    ghost var news := Redistribute(g, olds, nr - 1);
    keylist := QueueKeys(window, nr, nodes, nrNew, olds, news);
    UpdateWindow(window, nr, nodes[0].value);
  }

  /** new_nodes of lines 1296-1299: a fresh array holding the old nodes, repacked. */
  method CopyLeading(window: array<Option<Node>>, nr: nat, ghost olds: seq<Node>) returns (nodes: array<Option<Node>>)
    requires window.Length == MergeNodes && Holds(window[..], olds) && |olds| == nr
    ensures fresh(nodes) && nodes.Length == MergeNodes && Holds(nodes[..], olds)
  {
    nodes := new Option<Node>[MergeNodes](_ => None);
    var k := 0;
    while k < nr
      modifies nodes
      invariant k <= nr <= MergeNodes && forall m :: 0 <= m < k ==> nodes[m] == window[m]
    {
      nodes[k] := window[k];
      k := k + 1;
    }
  }

  /** The window update of lines 1424-1438. */
  method UpdateWindow(window: array<Option<Node>>, nr: nat, first: Node)
    requires window.Length == MergeNodes
    modifies window
    ensures window[..] == Replaced(old(window[..]), nr, first)
  {
    ghost var w0 := window[..];
    var k := 0;
    while k < nr && k < MergeNodes
      invariant k <= MergeNodes && k <= nr
      invariant forall m :: k <= m < MergeNodes ==> window[m] == w0[m]
      invariant forall m :: 0 <= m < k ==> window[m] == if m == 0 then Some(first) else None
    {
      if k == 0 {
        window[k] := Some(first);
      } else {
        window[k] := None;
      }
      k := k + 1;
    }
    ghost var r := Replaced(w0, nr, first);
    forall m | 0 <= m < MergeNodes ensures window[m] == r[m] {
    }
    assert window[..] == r;
  }

  // ---------------------------------------------------------------------------
  // The sliding window of bch2_coalesce_btree (lines 1455-1517)

  /** Slot k keeps the node it receives from slot k - 1 when that node, and every
      one it follows, is there, could be relocked, and is of b's level. */
  ghost predicate KeptUpTo(w: seq<Option<Node>>, b: Node, relocked: seq<bool>, k: nat)
    requires |w| == MergeNodes && |relocked| == MergeNodes && 0 < k < MergeNodes
  {
    forall m :: 0 <= m < k ==> w[m].Some? && relocked[m + 1] && w[m].value.level == b.level
  }

  lemma KeptAt(w: seq<Option<Node>>, b: Node, relocked: seq<bool>, k: nat, m: nat)
    requires |w| == MergeNodes && |relocked| == MergeNodes && 1 <= m <= k < MergeNodes
    requires KeptUpTo(w, b, relocked, k)
    ensures w[m - 1].Some? && relocked[m] && w[m - 1].value.level == b.level
  {
  }

  lemma KeptShorter(w: seq<Option<Node>>, b: Node, relocked: seq<bool>, k: nat)
    requires |w| == MergeNodes && |relocked| == MergeNodes && 1 < k < MergeNodes
    requires KeptUpTo(w, b, relocked, k)
    ensures KeptUpTo(w, b, relocked, k - 1)
  {
  }

  lemma KeptLonger(w: seq<Option<Node>>, b: Node, relocked: seq<bool>, k: nat)
    requires |w| == MergeNodes && |relocked| == MergeNodes && 1 <= k < MergeNodes
    requires k > 1 ==> KeptUpTo(w, b, relocked, k - 1)
    requires w[k - 1].Some? && relocked[k] && w[k - 1].value.level == b.level
    ensures KeptUpTo(w, b, relocked, k)
  {
  }

  lemma NotKeptAfter(w: seq<Option<Node>>, b: Node, relocked: seq<bool>, cut: nat, m: nat)
    requires |w| == MergeNodes && |relocked| == MergeNodes && 1 <= cut <= m < MergeNodes
    requires !(w[cut - 1].Some? && relocked[cut] && w[cut - 1].value.level == b.level)
    ensures !KeptUpTo(w, b, relocked, m)
  {
    if KeptUpTo(w, b, relocked, m) {
      KeptAt(w, b, relocked, m, cut);
      assert false;
    }
  }

  /** The window after lines 1473-1490: every node moves up a slot, b takes slot 0,
      and the window is cut at the first slot whose node is missing, could not be
      relocked (relocked[k] for slot k), or is of another level than b. */
  ghost function Shifted(w: seq<Option<Node>>, b: Node, relocked: seq<bool>): seq<Option<Node>>
    requires |w| == MergeNodes && |relocked| == MergeNodes
  {
    seq(MergeNodes, k requires 0 <= k < MergeNodes =>
      if k == 0 then Some(b) else if KeptUpTo(w, b, relocked, k) then w[k - 1] else None)
  }

  /** Slot 0 is taken, the taken slots come first, and they all hold nodes of one
      level. */
  ghost predicate Shaped(w: seq<Option<Node>>) {
    && |w| > 0 && w[0].Some?
    && forall k :: 0 < k < |w| && w[k].Some? ==> w[k - 1].Some? && w[k].value.level == w[0].value.level
  }

  lemma ShiftedShaped(w: seq<Option<Node>>, b: Node, relocked: seq<bool>)
    requires |w| == MergeNodes && |relocked| == MergeNodes
    ensures Shaped(Shifted(w, b, relocked)) && Shifted(w, b, relocked)[0] == Some(b)
  {
    var r := Shifted(w, b, relocked);
    forall k | 0 < k < MergeNodes && r[k].Some? ensures r[k - 1].Some? && r[k].value.level == b.level {
      assert r[k] == if KeptUpTo(w, b, relocked, k) then w[k - 1] else None;
      KeptAt(w, b, relocked, k, k);
      if k > 1 {
        KeptShorter(w, b, relocked, k);
        KeptAt(w, b, relocked, k - 1, k - 1);
        assert r[k - 1] == w[k - 2];
      }
    }
  }

  /** The memmove, the relock loop and the memset of lines 1473-1490. */
  method ShiftWindow(merge: array<Option<Node>>, b: Node, relocked: seq<bool>)
    requires merge.Length == MergeNodes && |relocked| == MergeNodes
    modifies merge
    ensures merge[..] == Shifted(old(merge[..]), b, relocked)
  {
    ghost var w := merge[..];
    var k := MergeNodes - 1;
    while k > 0
      invariant 0 <= k < MergeNodes
      invariant forall m :: k < m < MergeNodes ==> merge[m] == w[m - 1]
      invariant forall m :: 0 <= m <= k ==> merge[m] == w[m]
    {
      merge[k] := merge[k - 1];
      k := k - 1;
    }
    merge[0] := Some(b);
    var i := 1;
    while i < MergeNodes && merge[i].Some? && relocked[i] && merge[i].value.level == merge[0].value.level
      invariant 1 <= i <= MergeNodes
      invariant merge[0] == Some(b) && forall m :: 1 <= m < MergeNodes ==> merge[m] == w[m - 1]
      invariant forall m :: 1 <= m < i ==> KeptUpTo(w, b, relocked, m)
      decreases MergeNodes - i
    {
      if i > 1 {
        assert KeptUpTo(w, b, relocked, i - 1);
      }
      KeptLonger(w, b, relocked, i);
      i := i + 1;
    }
    ghost var cut := i;
    forall m | cut <= m < MergeNodes ensures !KeptUpTo(w, b, relocked, m) {
      NotKeptAfter(w, b, relocked, cut, m);
    }
    while i < MergeNodes
      invariant cut <= i <= MergeNodes
      invariant merge[0] == Some(b)
      invariant forall m :: 1 <= m < MergeNodes ==> merge[m] == if cut <= m < i then None else w[m - 1]
      decreases MergeNodes - i
    {
      merge[i] := None;
      i := i + 1;
    }
    assert merge[..] == Shifted(w, b, relocked);
  }

  /** In a window of that shape nothing follows the leading nodes. */
  lemma {:induction false} ShapedNoneAfter(w: seq<Option<Node>>, k: nat)
    requires Shaped(w) && |Leading(w)| <= k < |w|
    ensures w[k].None?
    decreases k
  {
    if k > |Leading(w)| {
      ShapedNoneAfter(w, k - 1);
    }
  }

  /** A window emptied after its first nr slots becomes a single node. */
  lemma ReplacedShaped(w: seq<Option<Node>>, nr: nat, first: Node)
    requires |w| == MergeNodes && nr > 0 && forall k :: nr <= k < MergeNodes ==> w[k].None?
    ensures Shaped(Replaced(w, nr, first)) && Replaced(w, nr, first)[0] == Some(first)
  {
    var r := Replaced(w, nr, first);
    assert forall k :: 0 < k < MergeNodes ==> r[k].None?;
  }

  /** Coalescing keeps the window's shape, and slot 0 still ends where it did. */
  lemma CoalescedShaped(g: Geometry, w: seq<Option<Node>>, ready: bool)
    requires GeometryOk(g) && |w| == MergeNodes && WellFormed(Leading(w)) && Shaped(w)
    ensures var r := Coalesced(g, w, ready);
      Shaped(r) && r[0].value.maxKey == w[0].value.maxKey && r[0].value.level == w[0].value.level
  {
    var olds := Leading(w);
    if ready && WorthCoalescing(g, olds) {
      var news := Redistribute(g, olds, |olds| - 1);
      forall k | |olds| <= k < MergeNodes ensures w[k].None? {
        ShapedNoneAfter(w, k);
      }
      ReplacedShaped(w, |olds|, news[0]);
    }
  }

  /** One turn of the loop of lines 1470-1517, at node b: the window is shifted and
      cut, coalesced, and, unless the thread is asked to stop (stop, which returns
      -ESHUTDOWN), emptied but for slot 0 when the parent was not relocked
      (parentLost).  Through it all slot 0 holds a node of b's level ending where
      b ends. */
  method Visit(g: Geometry, merge: array<Option<Node>>, b: Node, relocked: seq<bool>,
               ready: bool, stop: bool, parentLost: bool) returns (ret: int, keylist: seq<Entry>)
    requires GeometryOk(g) && merge.Length == MergeNodes && |relocked| == MergeNodes
    requires WellFormed(Leading(Shifted(merge[..], b, relocked)))
    modifies merge
    ensures ret == if stop then -ESHUTDOWN else 0
    ensures var c := Coalesced(g, Shifted(old(merge[..]), b, relocked), ready);
      merge[..] == if !stop && parentLost then [c[0], None, None, None] else c
    ensures keylist == CoalescedKeys(g, Shifted(old(merge[..]), b, relocked), ready)
    ensures Shaped(merge[..]) && merge[0].value.maxKey == b.maxKey && merge[0].value.level == b.level
  {
    ghost var w := Shifted(merge[..], b, relocked);
    ShiftWindow(merge, b, relocked);
    ShiftedShaped(old(merge[..]), b, relocked);
    CoalescedShaped(g, w, ready);
    var done;
    done, keylist := CoalesceNodes(g, merge, ready);
    if stop {
      return -ESHUTDOWN, keylist;
    }
    ret := 0;
    if parentLost {
      ClearSiblings(merge);
    }
  }

  /** The memset of lines 1513-1516: only slot 0 stays. */
  method ClearSiblings(merge: array<Option<Node>>)
    requires merge.Length == MergeNodes
    modifies merge
    ensures merge[..] == [old(merge[0]), None, None, None]
  {
    var i := 1;
    while i < MergeNodes
      invariant 1 <= i <= MergeNodes
      invariant merge[0] == old(merge[0])
      invariant forall m :: 1 <= m < i ==> merge[m].None?
    {
      merge[i] := None;
      i := i + 1;
    }
    assert merge[..] == [merge[0], None, None, None];
  }
}
