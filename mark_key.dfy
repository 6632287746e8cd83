/** The per-key side effects of marking (bch2_gc_mark_key) and the rewrite
    decision bch2_gc_btree takes from the staleness it reports.  The lowering of a
    bucket generation towards the generations of the pointers that refer to it is
    shared with the generation-only pass. */
module MarkKey {
  import opened Base
  import opened Buckets
  import opened PtrRepair

  /** The two bucket fields that pointers pull back: oldest_gen during marking,
      gc_gen during the generation-only pass. */
  datatype GenField = OldestGen | GcGen

  function Field(b: Bucket, f: GenField): Gen {
    match f
    case OldestGen => b.oldestGen
    case GcGen => b.gcGen
  }

  function SetField(b: Bucket, f: GenField, g: Gen): (r: Bucket)
    ensures Field(r, f) == g
    ensures f == OldestGen ==> r == b.(oldestGen := g)
    ensures f == GcGen ==> r == b.(gcGen := g)
  {
    match f
    case OldestGen => b.(oldestGen := g)
    case GcGen => b.(gcGen := g)
  }

  /** One pointer: if the bucket's field is after the pointer's generation it moves
      back to that generation (lines 322-323 and 1110-1111). */
  function LowerOne(s: Store, p: Ptr, f: GenField): (r: Store)
    requires InStore(s, p)
    ensures SameShape(s, r)
    ensures GenAfter(Field(Get(r, p), f), p.gen) == 0
    ensures Get(r, p) == Get(s, p)
            || (GenAfter(Field(Get(s, p), f), p.gen) > 0 && Get(r, p) == SetField(Get(s, p), f, p.gen))
    ensures forall d, i :: 0 <= d < |s| && 0 <= i < |s[d]| && (d, i) != (p.dev, p.bucket) ==> r[d][i] == s[d][i]
  {
    var g := Get(s, p);
    if GenAfter(Field(g, f), p.gen) > 0 then
      GenCmpZero(p.gen, p.gen);
      Put(s, p, SetField(g, f, p.gen))
    else s
  }

  /** The whole pointer loop. */
  function Lower(s: Store, ptrs: seq<Ptr>, f: GenField): (r: Store)
    requires AllInStore(s, ptrs)
    ensures SameShape(s, r)
    decreases |ptrs|
  {
    if ptrs == [] then s
    else
      var s1 := LowerOne(s, ptrs[0], f);
      SameShapeInStore(s, s1, ptrs[1..]);
      Lower(s1, ptrs[1..], f)
  }

  /** A pointer of the key that refers to bucket b of device d. */
  predicate RefersTo(p: Ptr, d: nat, b: nat) {
    p.dev == d && p.bucket == b
  }

  /** The field of a bucket only ever moves to the generation of a pointer that
      refers to it, and nothing else in the bucket changes; buckets no pointer
      refers to are left alone. */
  lemma {:induction false} LowerMovesToPtrGen(s: Store, ptrs: seq<Ptr>, f: GenField, d: nat, b: nat)
    requires AllInStore(s, ptrs) && d < |s| && b < |s[d]|
    ensures var r := Lower(s, ptrs, f);
      r[d][b] == s[d][b]
      || exists i :: 0 <= i < |ptrs| && RefersTo(ptrs[i], d, b) && r[d][b] == SetField(s[d][b], f, ptrs[i].gen)
    decreases |ptrs|
  {
    if ptrs != [] {
      var s1 := LowerOne(s, ptrs[0], f);
      var tail := ptrs[1..];
      SameShapeInStore(s, s1, tail);
      LowerMovesToPtrGen(s1, tail, f, d, b);
      var r := Lower(s, ptrs, f);
      assert r == Lower(s1, tail, f);
      if r[d][b] != s1[d][b] {
        var i :| 0 <= i < |tail| && RefersTo(tail[i], d, b) && r[d][b] == SetField(s1[d][b], f, tail[i].gen);
        assert tail[i] == ptrs[i + 1];
        if RefersTo(ptrs[0], d, b) {
          assert s1[d][b] == s[d][b] || s1[d][b] == SetField(s[d][b], f, ptrs[0].gen);
          assert SetField(s1[d][b], f, tail[i].gen) == SetField(s[d][b], f, tail[i].gen);
        }
      } else if r[d][b] != s[d][b] {
        assert RefersTo(ptrs[0], d, b);
      }
    }
  }

  /** Without two pointers into one bucket, each pointer's bucket ends up not after
      the pointer: it kept its generation, or it moved back to the pointer's. */
  lemma {:induction false} LowerDistinct(s: Store, ptrs: seq<Ptr>, f: GenField, i: nat)
    requires AllInStore(s, ptrs) && DistinctBuckets(ptrs) && i < |ptrs|
    ensures var r := Lower(s, ptrs, f);
      var old_ := Field(Get(s, ptrs[i]), f);
      && GenAfter(Field(Get(r, ptrs[i]), f), ptrs[i].gen) == 0
      && Field(Get(r, ptrs[i]), f) == (if GenAfter(old_, ptrs[i].gen) > 0 then ptrs[i].gen else old_)
    decreases |ptrs|
  {
    var s1 := LowerOne(s, ptrs[0], f);
    var tail := ptrs[1..];
    SameShapeInStore(s, s1, tail);
    TailDistinct(ptrs);
    if i == 0 {
      LowerUntouched(s1, tail, f, ptrs[0]);
      GenCmpZero(ptrs[0].gen, ptrs[0].gen);
    } else {
      assert ptrs[i] == tail[i - 1];
      LowerDistinct(s1, tail, f, i - 1);
      assert !SameBucket(ptrs[0], ptrs[i]);
    }
  }

  /** Buckets no pointer refers to keep their contents. */
  lemma {:induction false} LowerUntouched(s: Store, ptrs: seq<Ptr>, f: GenField, q: Ptr)
    requires AllInStore(s, ptrs) && InStore(s, q) && Untouched(ptrs, q)
    ensures Get(Lower(s, ptrs, f), q) == Get(s, q)
    decreases |ptrs|
  {
    if ptrs != [] {
      var s1 := LowerOne(s, ptrs[0], f);
      var tail := ptrs[1..];
      SameShapeInStore(s, s1, tail);
      assert !SameBucket(ptrs[0], q);
      assert Untouched(tail, q) by {
        forall i | 0 <= i < |tail| ensures !SameBucket(tail[i], q) {
          assert tail[i] == ptrs[i + 1];
        }
      }
      LowerUntouched(s1, tail, f, q);
    }
  }

  /** ptr_stale: how many generations the live bucket is ahead of the pointer. */
  function PtrStale(live: Store, p: Ptr): (r: nat)
    requires InStore(live, p)
    ensures r < 128
  {
    GenAfter(Get(live, p).mark.gen, p.gen)
  }

  /** *max_stale = max(*max_stale, ptr_stale(ca, ptr)) over the key's pointers
      (line 325): the running maximum. */
  function MaxStale(live: Store, ptrs: seq<Ptr>, m: nat): (r: nat)
    requires AllInStore(live, ptrs)
    ensures r >= m
    ensures forall i :: 0 <= i < |ptrs| ==> r >= PtrStale(live, ptrs[i])
    ensures r == m || exists i :: 0 <= i < |ptrs| && r == PtrStale(live, ptrs[i])
    decreases |ptrs|
  {
    if ptrs == [] then m
    else
      var r := MaxStale(live, ptrs[1..], Max(m, PtrStale(live, ptrs[0])));
      assert forall i :: 1 <= i < |ptrs| ==> ptrs[i] == ptrs[1..][i - 1];
      r
  }

  /** What bch2_gc_mark_key leaves behind. */
  datatype MarkResult = MarkResult(ret: int, state: FixState, keyVersion: nat, maxStale: nat, key: Key)

  /** bch2_gc_mark_key (lines 282-334).  During the initial pass the key version
      is raised to the key's own, the replicas are marked (its outcome, replicasRet,
      is a parameter: 0 when the marking was not needed or succeeded) and the
      pointers are checked and repaired.  Then, whatever the pointer check
      returned, the pointers of the key as it was read lower the shadow buckets'
      oldest_gen and raise max_stale to the running maximum, and the result and
      key are the pointer check's.  Bucket accounting is not part of this model. */
  function GcMarkKey(st: FixState, keyVersion: nat, maxStale: nat, isRoot: bool, k: Key,
                     initial: bool, replicasRet: int, stripes: seq<Stripe>): (r: MarkResult)
    requires Shaped(st) && AllInStore(st.gc, k.ptrs)
    ensures Shaped(r.state) && SameShape(r.state.gc, st.gc)
    ensures r.keyVersion >= keyVersion && (initial ==> r.keyVersion >= k.version)
    ensures r.keyVersion == keyVersion || (initial && r.keyVersion == k.version)
    ensures initial && replicasRet != 0 ==>
              r.ret == replicasRet && r.state == st && r.maxStale == maxStale && r.key == k
    ensures !initial ==> r.ret == 0 && r.key == k && r.state.live == st.live
    ensures !(initial && replicasRet != 0) ==>
              && r.maxStale >= maxStale
              && (forall i :: 0 <= i < |k.ptrs| ==> r.maxStale >= PtrStale(r.state.live, k.ptrs[i]))
              && r.maxStale == MaxStale(r.state.live, k.ptrs, maxStale)
    ensures initial && replicasRet == 0 ==>
              var f := CheckFixPtrs(st, isRoot, k, stripes);
              r.ret == f.ret && r.key == f.key && r.state.live == f.state.live
  {
    var kv := if initial then Max(keyVersion, k.version) else keyVersion;
    if initial && replicasRet != 0 then
      MarkResult(replicasRet, st, kv, maxStale, k)
    else
      var f := if initial then CheckFixPtrs(st, isRoot, k, stripes) else FixResult(0, st, k, false);
      SameShapeInStore(st.gc, f.state.gc, k.ptrs);
      var gc := Lower(f.state.gc, k.ptrs, OldestGen);
      MarkResult(f.ret, f.state.(gc := gc), kv, MaxStale(f.state.live, k.ptrs, maxStale), f.key)
  }

  /** After marking, the shadow bucket of every pointer of the key (as it was
      read) is not after that pointer, when the key's pointers refer to distinct
      buckets. */
  lemma MarkKeyOldestGen(st: FixState, keyVersion: nat, maxStale: nat, isRoot: bool, k: Key,
                         initial: bool, replicasRet: int, stripes: seq<Stripe>, i: nat)
    requires Shaped(st) && AllInStore(st.gc, k.ptrs) && DistinctBuckets(k.ptrs) && i < |k.ptrs|
    requires !(initial && replicasRet != 0)
    ensures var r := GcMarkKey(st, keyVersion, maxStale, isRoot, k, initial, replicasRet, stripes);
      InStore(r.state.gc, k.ptrs[i]) && GenAfter(Get(r.state.gc, k.ptrs[i]).oldestGen, k.ptrs[i].gen) == 0
  {
    var f := if initial then CheckFixPtrs(st, isRoot, k, stripes) else FixResult(0, st, k, false);
    SameShapeInStore(st.gc, f.state.gc, k.ptrs);
    LowerDistinct(f.state.gc, k.ptrs, OldestGen, i);
  }

  /** After marking, a shadow bucket's oldest_gen is what the pointer check left
      there or the generation of one of the key's pointers into it. */
  lemma MarkKeyOldestFromPtr(st: FixState, keyVersion: nat, maxStale: nat, isRoot: bool, k: Key,
                             initial: bool, replicasRet: int, stripes: seq<Stripe>, d: nat, b: nat)
    requires Shaped(st) && AllInStore(st.gc, k.ptrs) && d < |st.gc| && b < |st.gc[d]|
    requires !(initial && replicasRet != 0)
    ensures var r := GcMarkKey(st, keyVersion, maxStale, isRoot, k, initial, replicasRet, stripes);
      var f := if initial then CheckFixPtrs(st, isRoot, k, stripes).state else st;
      d < |r.state.gc| && b < |r.state.gc[d]|
      && (r.state.gc[d][b] == f.gc[d][b]
          || exists i :: 0 <= i < |k.ptrs| && RefersTo(k.ptrs[i], d, b)
                        && r.state.gc[d][b] == f.gc[d][b].(oldestGen := k.ptrs[i].gen))
  {
    var f := if initial then CheckFixPtrs(st, isRoot, k, stripes) else FixResult(0, st, k, false);
    SameShapeInStore(st.gc, f.state.gc, k.ptrs);
    LowerMovesToPtrGen(f.state.gc, k.ptrs, OldestGen, d, b);
  }

  /** The rewrite decision of lines 406-418: never during the initial pass; always
      when a pointer is more than 64 generations stale; otherwise when rewriting is
      not disabled and either forced or some pointer is more than 16 stale. */
  function ShouldRewriteNode(initial: bool, maxStale: nat, rewriteDisabled: bool, alwaysRewrite: bool): (r: bool)
    ensures r ==> !initial
    ensures !initial && maxStale > 64 ==> r
    ensures !initial && !rewriteDisabled && alwaysRewrite ==> r
    ensures !initial && !rewriteDisabled && maxStale > 16 ==> r
    ensures rewriteDisabled && maxStale <= 64 ==> !r
    ensures !alwaysRewrite && maxStale <= 16 ==> !r
  {
    if initial then false
    else if maxStale > 64 then true
    else !rewriteDisabled && (alwaysRewrite || maxStale > 16)
  }
}
