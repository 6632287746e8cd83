/** The generation-only pass, bch2_gc_gens: every bucket's gc_gen starts again at
    its generation and is pulled back by the pointers of the keys of every btree
    that holds pointers, a key with a pointer more than 16 generations stale is
    rewritten instead, and when the whole walk succeeds gc_gen becomes
    oldest_gen. */
module Gens {
  import opened Base
  import opened Buckets
  import opened MarkKey

  /** The first pointer loop of gc_btree_gens_key (lines 1096-1105): some pointer
      of the key is more than 16 generations behind its live bucket. */
  predicate TooStale(live: Store, ptrs: seq<Ptr>)
    requires AllInStore(live, ptrs)
  {
    exists i :: 0 <= i < |ptrs| && PtrStale(live, ptrs[i]) > 16
  }

  /** gc_btree_gens_key (lines 1090-1120) on the live buckets: a key too stale is
      left for rewriting and touches nothing, otherwise its pointers pull gc_gen
      back. */
  function GensKey(s: Store, ptrs: seq<Ptr>): (r: Store)
    requires AllInStore(s, ptrs)
    ensures SameShape(s, r)
    ensures TooStale(s, ptrs) ==> r == s
  {
    if TooStale(s, ptrs) then s else Lower(s, ptrs, GcGen)
  }

  /** Every key's pointers lie inside the store. */
  predicate KeysIn(s: Store, keys: seq<Key>) {
    forall i :: 0 <= i < |keys| ==> AllInStore(s, keys[i].ptrs)
  }

  lemma SameShapeKeysIn(s: Store, t: Store, keys: seq<Key>)
    requires SameShape(s, t) && KeysIn(s, keys)
    ensures KeysIn(t, keys)
  {
    forall i | 0 <= i < |keys| ensures AllInStore(t, keys[i].ptrs) {
      SameShapeInStore(s, t, keys[i].ptrs);
    }
  }

  datatype GensOutcome = GensOutcome(ret: int, store: Store)

  /** The key walk of bch2_gc_btree_gens (lines 1122-1162) over the keys of every
      btree that needs it, in order: commits[i] is what committing the rewrite of
      key i returns, if it is rewritten.  The first failing commit ends the walk
      with its error. */
  function GensWalk(s: Store, keys: seq<Key>, commits: seq<int>): (r: GensOutcome)
    requires KeysIn(s, keys) && |commits| == |keys|
    ensures SameShape(s, r.store)
    ensures r.ret == 0 || exists i :: 0 <= i < |keys| && r.ret == commits[i] && TooStale(s, keys[i].ptrs)
    decreases |keys|
  {
    if keys == [] then GensOutcome(0, s)
    else
      var k := keys[0];
      if TooStale(s, k.ptrs) && commits[0] != 0 then GensOutcome(commits[0], s)
      else
        var s1 := GensKey(s, k.ptrs);
        SameShapeKeysIn(s, s1, keys[1..]);
        var r := GensWalk(s1, keys[1..], commits[1..]);
        assert r.ret != 0 ==> exists i :: 0 <= i < |keys| && r.ret == commits[i] && TooStale(s, keys[i].ptrs) by {
          if r.ret != 0 {
            var i :| 0 <= i < |keys| - 1 && r.ret == commits[1..][i] && TooStale(s1, keys[1..][i].ptrs);
            GensKeyKeepsMarks(s, k.ptrs);
            SameMarksStale(s1, s, keys[i + 1].ptrs);
          }
        }
        r
  }

  /** Two stores whose buckets carry the same marks. */
  predicate SameMarks(s: Store, t: Store) {
    SameShape(s, t) && forall d, b :: 0 <= d < |s| && 0 <= b < |s[d]| ==> t[d][b].mark == s[d][b].mark
  }

  /** Staleness is read off the marks only. */
  lemma SameMarksStale(s: Store, t: Store, ptrs: seq<Ptr>)
    requires SameMarks(s, t) && AllInStore(s, ptrs)
    ensures AllInStore(t, ptrs) && (TooStale(s, ptrs) <==> TooStale(t, ptrs))
  {
    SameShapeInStore(s, t, ptrs);
    assert forall i :: 0 <= i < |ptrs| ==> PtrStale(s, ptrs[i]) == PtrStale(t, ptrs[i]);
  }

  /** gc_btree_gens_key changes gc_gen and nothing else. */
  lemma GensKeyKeepsMarks(s: Store, ptrs: seq<Ptr>)
    requires AllInStore(s, ptrs)
    ensures var r := GensKey(s, ptrs);
      SameMarks(s, r)
      && forall d, b :: 0 <= d < |s| && 0 <= b < |s[d]| ==> r[d][b] == s[d][b].(gcGen := r[d][b].gcGen)
  {
    var r: Store := GensKey(s, ptrs);
    forall d, b | 0 <= d < |s| && 0 <= b < |s[d]| ensures r[d][b] == s[d][b].(gcGen := r[d][b].gcGen) {
      if !TooStale(s, ptrs) {
        LowerMovesToPtrGen(s, ptrs, GcGen, d, b);
      }
    }
  }

  /** The walk changes gc_gen and nothing else, and every bucket's gc_gen is the
      one it started with or the generation of a pointer into it of a key that
      was not rewritten. */
  lemma {:induction false} GensWalkOnlyGcGen(s: Store, keys: seq<Key>, commits: seq<int>, d: nat, b: nat)
    requires KeysIn(s, keys) && |commits| == |keys| && d < |s| && b < |s[d]|
    ensures var r := GensWalk(s, keys, commits).store;
      && r[d][b] == s[d][b].(gcGen := r[d][b].gcGen)
      && (r[d][b].gcGen == s[d][b].gcGen || GenFromKey(s, keys, d, b, r[d][b].gcGen))
    decreases |keys|
  {
    if keys != [] {
      var k := keys[0];
      if !(TooStale(s, k.ptrs) && commits[0] != 0) {
        var s1 := GensKey(s, k.ptrs);
        SameShapeKeysIn(s, s1, keys[1..]);
        GensKeyKeepsMarks(s, k.ptrs);
        GensWalkOnlyGcGen(s1, keys[1..], commits[1..], d, b);
        var r: Store := GensWalk(s, keys, commits).store;
        assert r == GensWalk(s1, keys[1..], commits[1..]).store;
        if !TooStale(s, k.ptrs) {
          LowerMovesToPtrGen(s, k.ptrs, GcGen, d, b);
        }
        if r[d][b].gcGen != s1[d][b].gcGen {
          var j, i :| 0 <= j < |keys[1..]| && 0 <= i < |keys[1..][j].ptrs|
                      && !TooStale(s1, keys[1..][j].ptrs) && RefersTo(keys[1..][j].ptrs[i], d, b)
                      && keys[1..][j].ptrs[i].gen == r[d][b].gcGen;
          SameMarksStale(s1, s, keys[j + 1].ptrs);
          assert keys[1..][j] == keys[j + 1];
          assert GenFromKey(s, keys, d, b, r[d][b].gcGen) by {
            assert 0 <= j + 1 < |keys| && 0 <= i < |keys[j + 1].ptrs| && !TooStale(s, keys[j + 1].ptrs)
                   && RefersTo(keys[j + 1].ptrs[i], d, b) && keys[j + 1].ptrs[i].gen == r[d][b].gcGen;
          }
        } else if r[d][b].gcGen != s[d][b].gcGen {
          assert GenFromKey(s, keys, d, b, r[d][b].gcGen) by {
            var i :| 0 <= i < |k.ptrs| && RefersTo(k.ptrs[i], d, b) && s1[d][b] == SetField(s[d][b], GcGen, k.ptrs[i].gen);
            assert 0 <= 0 < |keys| && 0 <= i < |keys[0].ptrs| && !TooStale(s, keys[0].ptrs);
          }
        }
      }
    }
  }

  /** g is the generation of a pointer into bucket b of device d, in a key that is
      not too stale. */
  predicate GenFromKey(s: Store, keys: seq<Key>, d: nat, b: nat, g: Gen)
    requires KeysIn(s, keys)
  {
    exists j, i :: 0 <= j < |keys| && 0 <= i < |keys[j].ptrs|
      && !TooStale(s, keys[j].ptrs) && RefersTo(keys[j].ptrs[i], d, b) && keys[j].ptrs[i].gen == g
  }

  /** The first bucket loop: gc_gen starts again at the bucket's generation, in
      every bucket for_each_bucket visits, from the device's first_bucket up
      (first[d] for device d). */
  function ResetGc(s: Store, first: seq<nat>): (r: Store)
    requires |first| == |s|
    ensures SameShape(s, r)
    ensures forall d, b :: 0 <= d < |s| && 0 <= b < |s[d]| ==>
              r[d][b] == if b < first[d] then s[d][b] else s[d][b].(gcGen := s[d][b].mark.gen)
    decreases |s|
  {
    if s == [] then []
    else ResetGc(s[..|s| - 1], first[..|s| - 1]) + [ResetGcDev(s[|s| - 1], first[|s| - 1])]
  }

  function ResetGcDev(bs: seq<Bucket>, first: nat): (r: seq<Bucket>)
    ensures |r| == |bs|
    ensures forall b :: 0 <= b < |bs| ==> r[b] == if b < first then bs[b] else bs[b].(gcGen := bs[b].mark.gen)
    decreases |bs|
  {
    if bs == [] then []
    else
      var g := bs[|bs| - 1];
      ResetGcDev(bs[..|bs| - 1], first) + [if |bs| - 1 < first then g else g.(gcGen := g.mark.gen)]
  }

  /** The last bucket loop: oldest_gen takes gc_gen, from first_bucket up. */
  function Publish(s: Store, first: seq<nat>): (r: Store)
    requires |first| == |s|
    ensures SameShape(s, r)
    ensures forall d, b :: 0 <= d < |s| && 0 <= b < |s[d]| ==>
              r[d][b] == if b < first[d] then s[d][b] else s[d][b].(oldestGen := s[d][b].gcGen)
    decreases |s|
  {
    if s == [] then []
    else Publish(s[..|s| - 1], first[..|s| - 1]) + [PublishDev(s[|s| - 1], first[|s| - 1])]
  }

  function PublishDev(bs: seq<Bucket>, first: nat): (r: seq<Bucket>)
    ensures |r| == |bs|
    ensures forall b :: 0 <= b < |bs| ==> r[b] == if b < first then bs[b] else bs[b].(oldestGen := bs[b].gcGen)
    decreases |bs|
  {
    if bs == [] then []
    else
      var g := bs[|bs| - 1];
      PublishDev(bs[..|bs| - 1], first) + [if |bs| - 1 < first then g else g.(oldestGen := g.gcGen)]
  }

  /** bch2_gc_gens (lines 1164-1207) on the buckets: the walk's error, and the
      buckets it leaves.  On success oldest_gen is published; on an error the
      walk stops and oldest_gen is not touched.  Buckets below a device's
      first_bucket are neither reset nor published. */
  function GcGens(s: Store, first: seq<nat>, keys: seq<Key>, commits: seq<int>): (r: GensOutcome)
    requires KeysIn(s, keys) && |commits| == |keys| && |first| == |s|
    ensures SameShape(s, r.store)
  {
    var s0 := ResetGc(s, first);
    SameShapeKeysIn(s, s0, keys);
    var w := GensWalk(s0, keys, commits);
    if w.ret == 0 then GensOutcome(0, Publish(w.store, first)) else w
  }

  /** What the pass leaves in a bucket: its generation and everything but the two
      generation fields as they were.  In a bucket from first_bucket up, after a
      successful pass oldest_gen and gc_gen agree and are the bucket's own
      generation or the generation of a pointer into it of a key that was not
      rewritten.  After a failed pass, and below first_bucket always, oldest_gen
      is untouched. */
  lemma GcGensBucket(s: Store, first: seq<nat>, keys: seq<Key>, commits: seq<int>, d: nat, b: nat)
    requires KeysIn(s, keys) && |commits| == |keys| && |first| == |s| && d < |s| && b < |s[d]|
    ensures var r := GcGens(s, first, keys, commits);
      var s0 := ResetGc(s, first);
      && r.store[d][b].mark == s[d][b].mark && r.store[d][b].genValid == s[d][b].genValid
      && (r.ret == 0 && b >= first[d] ==> r.store[d][b].oldestGen == r.store[d][b].gcGen)
      && (r.ret == 0 && b >= first[d] ==>
            (r.store[d][b].oldestGen == s[d][b].mark.gen
             || (KeysIn(s0, keys) && GenFromKey(s0, keys, d, b, r.store[d][b].oldestGen))))
      && (r.ret != 0 || b < first[d] ==> r.store[d][b].oldestGen == s[d][b].oldestGen)
  {
    var s0 := ResetGc(s, first);
    SameShapeKeysIn(s, s0, keys);
    GensWalkOnlyGcGen(s0, keys, commits, d, b);
  }
}
