/** The collector's own state in struct bch_fs and struct bch_dev, and the
    operations of btree_gc.c that update it in place: gc_pos_set, bch2_gc_start,
    bch2_gc_done, bch2_gc_free, bch2_gc_gens and the restart loop of bch2_gc. */
module FsState {
  import opened Base
  import opened Buckets
  import opened GcOrder
  import opened Reconcile
  import opened MarkKey
  import opened Gens

  /** The contents of a sequence of bucket arrays, as a store. */
  ghost function Contents(arrs: seq<array<Bucket>>): (s: Store)
    reads arrs
    ensures |s| == |arrs| && forall d :: 0 <= d < |arrs| ==> s[d] == arrs[d][..]
    decreases |arrs|
  {
    if arrs == [] then [] else Contents(arrs[..|arrs| - 1]) + [arrs[|arrs| - 1][..]]
  }

  /** n zeroed counters. */
  function Zeros(n: nat): (r: seq<nat>)
    ensures |r| == n && forall i :: 0 <= i < n ==> r[i] == 0
  {
    if n == 0 then [] else Zeros(n - 1) + [0]
  }

  /** Sequences of arrays with no array twice. */
  predicate Distinct(arrs: seq<array<Bucket>>) {
    forall i, j :: 0 <= i < j < |arrs| ==> arrs[i] != arrs[j]
  }

  /** Two sequences of arrays with no array in common. */
  predicate Disjoint(a: seq<array<Bucket>>, b: seq<array<Bucket>>) {
    forall i, j :: 0 <= i < |a| && 0 <= j < |b| ==> a[i] != b[j]
  }

  class Fs {
    /** c->gc_pos. */
    var gcPos: GcPos
    /** BCH_FS_NEED_ANOTHER_GC and BCH_FS_NEED_ALLOC_WRITE in c->flags. */
    var needAnotherGc: bool
    var needAllocWrite: bool
    /** c->gc_count. */
    var gcCount: nat
    /** c->stripes[0], sparse, and c->stripes[1], the shadow table. */
    var stripes: map<nat, Stripe>
    var gcStripes: seq<Stripe>
    /** ca->buckets[0] of every member device. */
    const buckets: seq<array<Bucket>>
    /** The first_bucket of every member device's bucket array, which the shadow
        array copies (line 962). */
    const firstBucket: seq<nat>
    /** ca->buckets[1] of every member device, while shadowAllocated. */
    var gcBuckets: seq<array<Bucket>>
    var shadowAllocated: bool
    /** ca->usage_base and the folded ca->usage_gc, per device; c->usage_base and
        the folded c->usage_gc. */
    var devUsage: seq<seq<nat>>
    var gcDevUsage: seq<seq<nat>>
    var fsUsage: seq<nat>
    var gcFsUsage: seq<nat>

    ghost predicate Valid()
      reads this`stripes, this`gcStripes, this`shadowAllocated, this`gcBuckets, this`devUsage, this`gcDevUsage
    {
      ArraysOk() && StripesOk() && CountersOk()
    }

    /** The live arrays are distinct, and so are the shadow arrays, which have the
        live arrays' sizes. */
    ghost predicate ArraysOk()
      reads this`shadowAllocated, this`gcBuckets
    {
      && Distinct(buckets) && |firstBucket| == |buckets|
      && (shadowAllocated ==>
            && |gcBuckets| == |buckets| && Distinct(gcBuckets) && Disjoint(buckets, gcBuckets)
            && (forall d :: 0 <= d < |buckets| ==> gcBuckets[d].Length == buckets[d].Length))
    }

    /** Every stripe, live or shadow, has its block array. */
    ghost predicate StripesOk()
      reads this`stripes, this`gcStripes
    {
      && (forall i :: i in stripes ==> StripeShaped(stripes[i]))
      && (forall i :: 0 <= i < |gcStripes| ==> StripeShaped(gcStripes[i]))
    }

    /** One usage record per device, live and shadow. */
    ghost predicate CountersOk()
      reads this`shadowAllocated, this`devUsage, this`gcDevUsage
    {
      |devUsage| == |buckets| && (shadowAllocated ==> |gcDevUsage| == |buckets|)
    }

    /** The live buckets as a store. */
    ghost function Snap(): (s: Store)
      reads buckets
      ensures |s| == |buckets| && forall d :: 0 <= d < |buckets| ==> s[d] == buckets[d][..]
    {
      Contents(buckets)
    }

    constructor (arrs: seq<array<Bucket>>, firsts: seq<nat>, devCounters: seq<seq<nat>>, fsCounters: seq<nat>)
      requires Distinct(arrs) && |firsts| == |arrs| && |devCounters| == |arrs|
      ensures Valid() && buckets == arrs && firstBucket == firsts && !shadowAllocated && gcPos == Phase(PhaseNotRunning)
      ensures devUsage == devCounters && fsUsage == fsCounters && stripes == map[] && gcStripes == []
      ensures !needAnotherGc && !needAllocWrite && gcCount == 0
    {
      gcPos := Phase(PhaseNotRunning);
      needAnotherGc := false;
      needAllocWrite := false;
      gcCount := 0;
      stripes := map[];
      gcStripes := [];
      buckets := arrs;
      firstBucket := firsts;
      gcBuckets := [];
      shadowAllocated := false;
      devUsage := devCounters;
      gcDevUsage := [];
      fsUsage := fsCounters;
      gcFsUsage := [];
    }

    /** gc_pos_set (lines 47-51): the position only moves forward. */
    method GcPosSet(p: GcPos)
      requires PosLt(gcPos, p)
      modifies this`gcPos
      ensures gcPos == p
    {
      gcPos := p;
    }

    /** __gc_pos_set back to GC_PHASE_NOT_RUNNING, the only way back (lines 1038
        and 1065). */
    method ResetGcPos()
      modifies this`gcPos
      ensures gcPos == Phase(PhaseNotRunning)
    {
      gcPos := Phase(PhaseNotRunning);
    }

    /** bch2_gc_free (lines 739-758). */
    method GcFree()
      modifies this`gcBuckets, this`shadowAllocated, this`gcStripes, this`gcDevUsage, this`gcFsUsage
      ensures !shadowAllocated && gcBuckets == [] && gcStripes == [] && gcDevUsage == [] && gcFsUsage == []
    {
      gcStripes := [];
      gcBuckets := [];
      gcDevUsage := [];
      gcFsUsage := [];
      shadowAllocated := false;
    }

    /** bch2_gc_start (lines 907-977) with every allocation succeeding: fresh,
        zeroed shadow counters and bucket arrays, the position moves to
        GC_PHASE_START, and each shadow bucket takes over its live bucket's
        generation (as gen and as oldest_gen) and gen_valid bit. */
    method GcStart()
      requires Valid() && !shadowAllocated && gcPos == Phase(PhaseNotRunning)
      modifies this`gcBuckets, this`shadowAllocated, this`gcDevUsage, this`gcFsUsage, this`gcPos
      ensures Valid() && shadowAllocated && gcPos == Phase(PhaseStart)
      ensures forall d :: 0 <= d < |gcBuckets| ==> fresh(gcBuckets[d])
      ensures forall d, b :: 0 <= d < |buckets| && 0 <= b < buckets[d].Length ==>
        gcBuckets[d][b] == ShadowOf(buckets[d][b])
      ensures forall d :: 0 <= d < |gcDevUsage| ==> gcDevUsage[d] == Zeros(|devUsage[d]|)
      ensures gcFsUsage == Zeros(|fsUsage|)
    {
      gcFsUsage := Zeros(|fsUsage|);
      gcDevUsage := ZeroDev(devUsage);
      GcPosSet(Phase(PhaseStart));
      gcBuckets := StartShadows(buckets);
      shadowAllocated := true;
    }

    /** The live buckets hold s. */
    ghost predicate LiveIs(s: Store)
      reads buckets
    {
      |s| == |buckets| && forall d :: 0 <= d < |buckets| ==> buckets[d][..] == s[d]
    }

    /** The shadow buckets as a store. */
    ghost function ShadowSnap(): (s: Store)
      reads this`gcBuckets, gcBuckets
      ensures |s| == |gcBuckets| && forall d :: 0 <= d < |gcBuckets| ==> s[d] == gcBuckets[d][..]
    {
      Contents(gcBuckets)
    }

    /** The device loop of bch2_gc_done (lines 835-849). */
    method DoneDevices(ghost o: PassOutcome) returns (changed: bool)
      requires Valid() && shadowAllocated && ShadowIs(o) && LiveIs(o.live)
      modifies buckets
      ensures MarksTaken(o, Snap())
      ensures changed <==> exists d :: 0 <= d < |o.live| && d < |o.marks| && MarksDiffer(o.live[d], o.marks[d])
    {
      changed := DoneArrays(buckets, gcBuckets);
    }

    /** The stripe part of bch2_gc_done (lines 803-830). */
    method DoneAllStripes() returns (ret: int, changed: bool)
      requires Valid() && shadowAllocated
      modifies this`stripes
      ensures Valid()
      ensures ret == 0 || ret == -EINVAL
      ensures ret == 0 <==> forall i :: 0 <= i < |gcStripes| ==> SameStripeShape(LiveStripe(old(stripes), i), gcStripes[i])
      ensures ret == 0 ==> DoneUpTo(old(stripes), gcStripes, stripes, |gcStripes|, changed)
      ensures ret == 0 ==> (changed <==> StripesChanged(old(stripes), gcStripes))
      ensures ret != 0 ==> exists j :: FailedAt(old(stripes), gcStripes, stripes, j, changed)
    {
      var live;
      ret, live, changed := DoneStripes(stripes, gcStripes);
      if ret != 0 {
        ghost var j :| FailedAt(stripes, gcStripes, live, j, changed);
        FailKeepsShape(stripes, gcStripes, live, j, changed);
      } else {
        DoneKeepsShape(stripes, gcStripes, live, changed);
      }
      stripes := live;
    }

    /** The counter part of bch2_gc_done (lines 851-894): each counter that
        differs is copied and reported. */
    method DoneCounters() returns (changed: bool)
      modifies this`devUsage, this`fsUsage
      ensures devUsage == gcDevUsage && fsUsage == gcFsUsage
      ensures changed <==> CountersDiffer(old(devUsage), old(fsUsage), gcDevUsage, gcFsUsage)
    {
      changed := false;
      if devUsage != gcDevUsage {
        devUsage := gcDevUsage;
        changed := true;
      }
      if fsUsage != gcFsUsage {
        fsUsage := gcFsUsage;
        changed := true;
      }
    }

    /** bch2_gc_done (lines 760-905).  The stripes come first: a shape mismatch
        returns -EINVAL at once, with the stripes before it reconciled, the
        NEED_ALLOC_WRITE bit set when their block counts differed, and the
        buckets and counters untouched.  Otherwise every live bucket takes the
        shadow's six mark fields and oldest_gen, the counters take the shadow
        counters, and NEED_ALLOC_WRITE is set when any of them differed. */
    method GcDone(ghost o: PassOutcome) returns (ret: int)
      requires Valid() && shadowAllocated && ShadowIs(o) && LiveIs(o.live)
      modifies this`stripes, this`needAllocWrite, this`devUsage, this`fsUsage, buckets
      ensures Valid()
      ensures ret == 0 || ret == -EINVAL
      ensures ret == 0 <==> forall i :: 0 <= i < |gcStripes| ==> SameStripeShape(LiveStripe(old(stripes), i), gcStripes[i])
      ensures ret == 0 ==>
        CleanDone(old(stripes), old(devUsage), old(fsUsage), old(needAllocWrite), o, stripes, Snap(), devUsage, fsUsage, needAllocWrite)
      ensures ret != 0 ==> FailedDone(old(stripes), gcStripes, stripes, old(needAllocWrite), needAllocWrite)
      ensures ret != 0 ==> LiveIs(o.live)
      ensures ret != 0 ==> devUsage == old(devUsage) && fsUsage == old(fsUsage)
    {
      var sch;
      ret, sch := DoneAllStripes();
      if ret != 0 {
        needAllocWrite := needAllocWrite || sch;
        ghost var j :| FailedAt(old(stripes), gcStripes, stripes, j, sch);
        assert FailedAt(old(stripes), gcStripes, stripes, j, sch) && (needAllocWrite <==> old(needAllocWrite) || sch);
        return;
      }
      DoneBucketsAndCounters(sch, o);
    }

    /** The rest of bch2_gc_done once the stripes matched (lines 835-894): the
        buckets and the counters, with NEED_ALLOC_WRITE set when the stripes'
        block counts (sch) or any of these differed. */
    method DoneBucketsAndCounters(sch: bool, ghost o: PassOutcome)
      requires Valid() && shadowAllocated && ShadowIs(o) && LiveIs(o.live)
      modifies this`needAllocWrite, this`devUsage, this`fsUsage, buckets
      ensures Valid()
      ensures MarksTaken(o, Snap())
      ensures devUsage == gcDevUsage && fsUsage == gcFsUsage
      ensures needAllocWrite <==>
        old(needAllocWrite) || sch
        || (exists d :: 0 <= d < |o.live| && d < |o.marks| && MarksDiffer(o.live[d], o.marks[d]))
        || CountersDiffer(old(devUsage), old(fsUsage), gcDevUsage, gcFsUsage)
    {
      var bch := DoneDevices(o);
      var cch := DoneCounters();
      needAllocWrite := needAllocWrite || sch || bch || cch;
    }

    /** The first pointer loop of gc_btree_gens_key (lines 1096-1105). */
    method StaleCheck(ptrs: seq<Ptr>) returns (stale: bool)
      requires AllInStore(Snap(), ptrs)
      ensures stale == TooStale(Snap(), ptrs)
    {
      var i := 0;
      while i < |ptrs|
        invariant 0 <= i <= |ptrs|
        invariant forall j :: 0 <= j < i ==> PtrStale(Snap(), ptrs[j]) <= 16
      {
        var p := ptrs[i];
        if GenAfter(buckets[p.dev][p.bucket].mark.gen, p.gen) > 16 {
          assert PtrStale(Snap(), ptrs[i]) > 16;
          return true;
        }
        i := i + 1;
      }
      return false;
    }

    /** One pointer of the second loop (lines 1110-1111). */
    method LowerGcGen(p: Ptr)
      requires Distinct(buckets) && InStore(Snap(), p)
      modifies buckets
      ensures Snap() == LowerOne(old(Snap()), p, GcGen)
    {
      ghost var before := Snap();
      var a := buckets[p.dev];
      var g := a[p.bucket];
      if GenAfter(g.gcGen, p.gen) > 0 {
        a[p.bucket] := g.(gcGen := p.gen);
        forall d | 0 <= d < |buckets| ensures Snap()[d] == Put(before, p, g.(gcGen := p.gen))[d] {
          if d != p.dev { assert buckets[d] != a; }
        }
      }
    }

    /** gc_btree_gens_key (lines 1090-1120) in place on the live buckets: it
        reports the key too stale exactly when TooStale says so, and changes
        the buckets as GensKey does. */
    method GensKeyInPlace(ptrs: seq<Ptr>) returns (rewrite: bool)
      requires Distinct(buckets) && AllInStore(Snap(), ptrs)
      modifies buckets
      ensures rewrite == TooStale(old(Snap()), ptrs)
      ensures Snap() == GensKey(old(Snap()), ptrs)
    {
      ghost var s0 := Snap();
      rewrite := StaleCheck(ptrs);
      if rewrite {
        return;
      }
      var i := 0;
      while i < |ptrs|
        invariant 0 <= i <= |ptrs|
        invariant SameShape(s0, Snap()) && AllInStore(Snap(), ptrs[i..])
        invariant Lower(Snap(), ptrs[i..], GcGen) == Lower(s0, ptrs, GcGen)
      {
        ghost var before := Snap();
        assert ptrs[i..][0] == ptrs[i] && ptrs[i..][1..] == ptrs[i + 1..];
        LowerGcGen(ptrs[i]);
        SameShapeInStore(before, Snap(), ptrs[i + 1..]);
        i := i + 1;
      }
    }

    /** The first bucket loop of bch2_gc_gens (lines 1179-1186). */
    method ResetAll()
      requires Distinct(buckets) && |firstBucket| == |buckets|
      modifies buckets
      ensures Snap() == ResetGc(old(Snap()), firstBucket)
    {
      ghost var s0 := Snap();
      var d := 0;
      while d < |buckets|
        invariant 0 <= d <= |buckets|
        invariant forall j :: 0 <= j < d ==> buckets[j][..] == ResetGcDev(s0[j], firstBucket[j])
        invariant forall j :: d <= j < |buckets| ==> buckets[j][..] == s0[j]
      {
        ResetGcGen(buckets[d], firstBucket[d]);
        d := d + 1;
      }
      forall j | 0 <= j < |buckets| ensures Snap()[j] == ResetGc(s0, firstBucket)[j] {
        assert forall b :: 0 <= b < |s0[j]| ==> Snap()[j][b] == ResetGc(s0, firstBucket)[j][b];
      }
    }

    /** The last bucket loop of bch2_gc_gens (lines 1197-1204). */
    method PublishAll()
      requires Distinct(buckets) && |firstBucket| == |buckets|
      modifies buckets
      ensures Snap() == Publish(old(Snap()), firstBucket)
    {
      ghost var s0 := Snap();
      var d := 0;
      while d < |buckets|
        invariant 0 <= d <= |buckets|
        invariant forall j :: 0 <= j < d ==> buckets[j][..] == PublishDev(s0[j], firstBucket[j])
        invariant forall j :: d <= j < |buckets| ==> buckets[j][..] == s0[j]
      {
        PublishOldestGen(buckets[d], firstBucket[d]);
        d := d + 1;
      }
      forall j | 0 <= j < |buckets| ensures Snap()[j] == Publish(s0, firstBucket)[j] {
        assert forall b :: 0 <= b < |s0[j]| ==> Snap()[j][b] == Publish(s0, firstBucket)[j][b];
      }
    }

    /** The walk over the keys (lines 1188-1195, 1122-1162).  The buckets end as
        GensWalk says and the error is GensWalk's. */
    method WalkKeys(keys: seq<Key>, commits: seq<int>) returns (ret: int)
      requires Distinct(buckets) && KeysIn(Snap(), keys) && |commits| == |keys|
      modifies buckets
      ensures GensWalk(old(Snap()), keys, commits) == GensOutcome(ret, Snap())
    {
      ghost var s0 := Snap();
      ghost var w := GensWalk(s0, keys, commits);
      ret := 0;
      var i := 0;
      while i < |keys|
        invariant 0 <= i <= |keys|
        invariant KeysIn(Snap(), keys[i..])
        invariant GensWalk(Snap(), keys[i..], commits[i..]) == w
      {
        ghost var before := Snap();
        assert keys[i..][0] == keys[i] && keys[i..][1..] == keys[i + 1..];
        assert commits[i..][0] == commits[i] && commits[i..][1..] == commits[i + 1..];
        var rewrite := GensKeyInPlace(keys[i].ptrs);
        if rewrite && commits[i] != 0 {
          ret := commits[i];
          return;
        }
        SameShapeKeysIn(before, Snap(), keys[i + 1..]);
        i := i + 1;
      }
    }

    /** bch2_gc_gens (lines 1164-1207): the buckets end as GcGens says, and
        gc_count goes up by one exactly when the pass succeeds. */
    method GcGensPass(keys: seq<Key>, commits: seq<int>) returns (ret: int)
      requires Valid() && KeysIn(Snap(), keys) && |commits| == |keys|
      modifies buckets, this`gcCount
      ensures GcGens(old(Snap()), firstBucket, keys, commits) == GensOutcome(ret, Snap())
      ensures gcCount == if ret == 0 then old(gcCount) + 1 else old(gcCount)
    {
      ghost var s0 := Snap();
      ResetAll();
      ghost var s1 := Snap();
      SameShapeKeysIn(s0, s1, keys);
      ret := WalkKeys(keys, commits);
      ghost var w := GensOutcome(ret, Snap());
      assert GcGens(s0, firstBucket, keys, commits)
        == if ret == 0 then GensOutcome(0, Publish(w.store, firstBucket)) else w;
      if ret != 0 {
        return;
      }
      PublishAll();
      gcCount := gcCount + 1;
    }

    /** What one marking pass can leave in the shadow state of this filesystem. */
    predicate Fits(o: PassOutcome) {
      && |o.marks| == |buckets| && (forall d :: 0 <= d < |buckets| ==> |o.marks[d]| == buckets[d].Length)
      && (forall i :: 0 <= i < |o.stripes| ==> StripeShaped(o.stripes[i]))
      && |o.devUsage| == |buckets|
      && WalkOk(o.walk)
      && |o.live| == |buckets| && (forall d :: 0 <= d < |buckets| ==> |o.live[d]| == buckets[d].Length)
    }

    /** The positions the btree walk and bch2_mark_allocator_buckets set, in
        order (lines 394, 400, 432, 703 and 727). */
    method WalkPositions(walk: seq<GcPos>)
      requires WalkOk(walk) && (walk != [] ==> PosLt(gcPos, walk[0]))
      modifies this`gcPos
      ensures gcPos == if walk == [] then old(gcPos) else walk[|walk| - 1]
    {
      var i := 0;
      while i < |walk|
        invariant 0 <= i <= |walk|
        invariant gcPos == if i == 0 then old(gcPos) else walk[i - 1]
      {
        GcPosSet(walk[i]);
        i := i + 1;
      }
    }

    /** The marks a pass leaves in the shadow buckets; this step writes no live
        bucket (FillLive does). */
    method FillShadow(marks: Store)
      requires Valid() && shadowAllocated && |marks| == |buckets|
      requires forall d :: 0 <= d < |buckets| ==> |marks[d]| == buckets[d].Length
      modifies gcBuckets
      ensures forall d :: 0 <= d < |gcBuckets| ==> gcBuckets[d][..] == marks[d]
      ensures forall d :: 0 <= d < |buckets| ==> buckets[d][..] == old(buckets[d][..])
    {
      var d := 0;
      while d < |gcBuckets|
        invariant 0 <= d <= |gcBuckets|
        invariant forall j :: 0 <= j < d ==> gcBuckets[j][..] == marks[j]
        invariant forall j :: 0 <= j < |buckets| ==> buckets[j][..] == old(buckets[j][..])
      {
        Fill(gcBuckets[d], marks[d]);
        d := d + 1;
      }
    }

    /** What the pointer checks of an initial pass (bch2_check_fix_ptrs, lines
        184-186 and 197-203) leave in the live buckets; the shadow buckets
        stay. */
    method FillLive(live: Store)
      requires Valid() && shadowAllocated && |live| == |buckets|
      requires forall d :: 0 <= d < |buckets| ==> |live[d]| == buckets[d].Length
      modifies buckets
      ensures LiveIs(live)
      ensures forall d :: 0 <= d < |gcBuckets| ==> gcBuckets[d][..] == old(gcBuckets[d][..])
    {
      var d := 0;
      while d < |buckets|
        invariant 0 <= d <= |buckets|
        invariant forall j :: 0 <= j < d ==> buckets[j][..] == live[j]
        invariant forall j :: 0 <= j < |gcBuckets| ==> gcBuckets[j][..] == old(gcBuckets[j][..])
      {
        Fill(buckets[d], live[d]);
        d := d + 1;
      }
    }

    /** The live and the shadow buckets a pass leaves. */
    method FillStores(live: Store, marks: Store)
      requires Valid() && shadowAllocated && |live| == |buckets| && |marks| == |buckets|
      requires forall d :: 0 <= d < |buckets| ==> |live[d]| == buckets[d].Length && |marks[d]| == buckets[d].Length
      modifies buckets, gcBuckets
      ensures LiveIs(live)
      ensures forall d :: 0 <= d < |gcBuckets| ==> gcBuckets[d][..] == marks[d]
    {
      FillLive(live);
      FillShadow(marks);
    }

    /** The flags, shadow stripes and counters a pass leaves, and the positions
        its walk sets. */
    method MarkFields(o: PassOutcome)
      requires Valid() && shadowAllocated && gcPos == Phase(PhaseSb) && Fits(o)
      modifies this`gcPos, this`needAnotherGc, this`needAllocWrite, this`gcStripes, this`gcDevUsage, this`gcFsUsage
      ensures Valid() && shadowAllocated
      ensures needAnotherGc == (old(needAnotherGc) || o.needAnother)
      ensures needAllocWrite == (old(needAllocWrite) || o.allocWrite)
      ensures gcStripes == o.stripes && gcDevUsage == o.devUsage && gcFsUsage == o.fsUsage
      ensures gcPos == if o.walk == [] then Phase(PhaseSb) else o.walk[|o.walk| - 1]
    {
      needAllocWrite := needAllocWrite || o.allocWrite;
      gcStripes := o.stripes;
      gcDevUsage := o.devUsage;
      gcFsUsage := o.fsUsage;
      needAnotherGc := needAnotherGc || o.needAnother;
      if o.walk != [] {
        WalkPositions(o.walk);
      }
    }

    /** bch2_gc_start followed by one marking pass. */
    method RunPass(o: PassOutcome)
      requires Valid() && !shadowAllocated && gcPos == Phase(PhaseNotRunning) && Fits(o)
      modifies this`gcPos, this`needAnotherGc, this`needAllocWrite, this`gcStripes, this`gcDevUsage, this`gcFsUsage,
               this`gcBuckets, this`shadowAllocated, buckets
      ensures Valid() && shadowAllocated
      ensures needAnotherGc == (old(needAnotherGc) || o.needAnother)
      ensures needAllocWrite == (old(needAllocWrite) || o.allocWrite)
      ensures forall d :: 0 <= d < |gcBuckets| ==> gcBuckets[d][..] == o.marks[d]
      ensures gcStripes == o.stripes && gcDevUsage == o.devUsage && gcFsUsage == o.fsUsage
      ensures LiveIs(o.live)
    {
      GcStart();
      MarkPass(o);
    }

    /** One marking pass: bch2_mark_superblocks moves the position to
        GC_PHASE_SB, then bch2_gc_btrees and bch2_mark_allocator_buckets walk
        their positions and leave their marks in the shadow state.  What they
        mark and the positions they set are the pass outcome o, whether or not
        the btree walk fails; its result, o.btreesRet, is taken as given, and the
        pass may ask for another.  The pointer checks of an initial pass also
        write the live buckets and may set NEED_ALLOC_WRITE; o.live and
        o.allocWrite say what they leave. */
    method MarkPass(o: PassOutcome)
      requires Valid() && shadowAllocated && gcPos == Phase(PhaseStart) && Fits(o)
      modifies this`gcPos, this`needAnotherGc, this`needAllocWrite, this`gcStripes, this`gcDevUsage, this`gcFsUsage,
               gcBuckets, buckets
      ensures Valid() && shadowAllocated
      ensures needAnotherGc == (old(needAnotherGc) || o.needAnother)
      ensures needAllocWrite == (old(needAllocWrite) || o.allocWrite)
      ensures forall d :: 0 <= d < |gcBuckets| ==> gcBuckets[d][..] == o.marks[d]
      ensures gcStripes == o.stripes && gcDevUsage == o.devUsage && gcFsUsage == o.fsUsage
      ensures gcPos == if o.walk == [] then Phase(PhaseSb) else o.walk[|o.walk| - 1]
      ensures LiveIs(o.live)
    {
      GcPosSet(Phase(PhaseSb));
      MarkFields(o);
      FillStores(o.live, o.marks);
    }

    /** The restart loop of bch2_gc (lines 1012-1051): passes are made and
        restarted as RestartLoop says, each finished pass bumps gc_count, and the
        last pass's shadow state is left for bch2_gc_done. */
    method RestartPasses(passes: seq<PassOutcome>, testRestart: bool) returns (ret: int, last: nat)
      requires Valid() && !shadowAllocated && gcPos == Phase(PhaseNotRunning)
      requires |passes| == 4 && (forall i :: 0 <= i < 4 ==> Fits(passes[i]))
      modifies this`gcPos, this`needAnotherGc, this`needAllocWrite, this`gcStripes, this`gcDevUsage, this`gcFsUsage,
               this`gcBuckets, this`shadowAllocated, this`gcCount, buckets
      ensures Valid() && shadowAllocated
      ensures last == LastPass(old(needAnotherGc), passes, testRestart)
      ensures LiveIs(passes[last].live)
      ensures needAllocWrite == (old(needAllocWrite) || AllocWriteUpTo(passes, last))
      ensures ret == LoopRet(old(needAnotherGc), passes, testRestart)
      ensures gcCount == old(gcCount) + LoopCounted(old(needAnotherGc), passes, testRestart)
      ensures needAnotherGc == LoopFlag(old(needAnotherGc), passes, testRestart)
      ensures ShadowIs(passes[last])
    {
      ghost var flag0 := needAnotherGc;
      var iter := 0;
      var again;
      ret, again := OnePass(passes[0], testRestart);
      while again && iter <= 2
        invariant iter <= 3 && Valid() && shadowAllocated
        invariant iter <= LastPass(flag0, passes, testRestart)
        invariant ret == passes[iter].btreesRet
        invariant needAnotherGc == ((iter == 0 && flag0) || passes[iter].needAnother)
        invariant gcCount == old(gcCount) + iter + (if ret == 0 then 1 else 0)
        invariant again <==> Again(flag0, passes, testRestart, iter)
        invariant ShadowIs(passes[iter])
        invariant LiveIs(passes[iter].live)
        invariant needAllocWrite == (old(needAllocWrite) || AllocWriteUpTo(passes, iter))
        decreases 3 - iter
      {
        LastPassAfter(flag0, passes, testRestart, iter);
        ghost var w := AllocWriteUpTo(passes, iter);
        iter := iter + 1;
        assert AllocWriteUpTo(passes, iter) == (passes[iter].allocWrite || w);
        ret, again := NextPass(passes[iter]);
      }
      LoopExit(flag0, passes, testRestart, iter);
      if again {
        ret := -EINVAL;
      }
      last := iter;
    }

    /** A restart (lines 1035-1046) and the pass after it, which no test restart
        forces. */
    method NextPass(o: PassOutcome) returns (ret: int, again: bool)
      requires Valid() && shadowAllocated && Fits(o)
      modifies this`gcPos, this`needAnotherGc, this`needAllocWrite, this`gcStripes, this`gcDevUsage, this`gcFsUsage,
               this`gcBuckets, this`shadowAllocated, this`gcCount, buckets
      ensures Valid() && shadowAllocated && ret == o.btreesRet
      ensures needAnotherGc == o.needAnother
      ensures needAllocWrite == (old(needAllocWrite) || o.allocWrite)
      ensures LiveIs(o.live)
      ensures gcCount == if ret == 0 then old(gcCount) + 1 else old(gcCount)
      ensures again <==> ret == 0 && needAnotherGc
      ensures ShadowIs(o)
    {
      Restart();
      ret, again := OnePass(o, false);
    }

    /** The shadow state holds what pass o marked. */
    ghost predicate ShadowIs(o: PassOutcome)
      reads this`gcBuckets, gcBuckets, this`gcStripes, this`gcDevUsage, this`gcFsUsage
    {
      && |gcBuckets| == |o.marks| && (forall d :: 0 <= d < |gcBuckets| ==> gcBuckets[d][..] == o.marks[d])
      && gcStripes == o.stripes && gcDevUsage == o.devUsage && gcFsUsage == o.fsUsage
    }

    /** What bch2_gc does before it goes back to the again: label (lines 1035-1046): the bit
        is cleared, the position goes back to GC_PHASE_NOT_RUNNING and the shadow
        state is freed. */
    method Restart()
      requires Valid()
      modifies this`needAnotherGc, this`gcPos, this`gcBuckets, this`shadowAllocated, this`gcStripes,
               this`gcDevUsage, this`gcFsUsage
      ensures Valid() && !shadowAllocated && gcPos == Phase(PhaseNotRunning) && !needAnotherGc
    {
      needAnotherGc := false;
      EndGc();
    }

    /** One pass of the restart loop (lines 1013-1028): bch2_gc_start, the
        marking, and on success gc_count++ and the test for another pass, which is
        NEED_ANOTHER_GC or, when forced, a test restart. */
    method OnePass(o: PassOutcome, forced: bool) returns (ret: int, again: bool)
      requires Valid() && !shadowAllocated && gcPos == Phase(PhaseNotRunning) && Fits(o)
      modifies this`gcPos, this`needAnotherGc, this`needAllocWrite, this`gcStripes, this`gcDevUsage, this`gcFsUsage,
               this`gcBuckets, this`shadowAllocated, this`gcCount, buckets
      ensures Valid() && shadowAllocated && ret == o.btreesRet
      ensures needAnotherGc == (old(needAnotherGc) || o.needAnother)
      ensures needAllocWrite == (old(needAllocWrite) || o.allocWrite)
      ensures LiveIs(o.live)
      ensures gcCount == if ret == 0 then old(gcCount) + 1 else old(gcCount)
      ensures again <==> ret == 0 && (needAnotherGc || forced)
      ensures ShadowIs(o)
    {
      RunPass(o);
      ret := o.btreesRet;
      again := false;
      if ret == 0 {
        gcCount := gcCount + 1;
        again := needAnotherGc || forced;
      }
    }

    /** bch2_gc (lines 997-1088) with the outcome of each marking pass given.
        The passes and their restarts go as RestartLoop says; gc_count counts the
        passes that finished marking; bch2_gc_done runs, on the last pass's
        marks, only when the loop ended without an error; and on every exit the
        position is back at GC_PHASE_NOT_RUNNING and the shadow state is freed.
        Only an initial pass writes live buckets or sets NEED_ALLOC_WRITE while
        marking (the pointer checks of bch2_check_fix_ptrs); outside it each
        pass's live buckets are the ones Gc started from. */
    method Gc(passes: seq<PassOutcome>, testRestart: bool, initial: bool) returns (ret: int, last: nat, ghost loopRet: int)
      requires Valid() && !shadowAllocated && gcPos == Phase(PhaseNotRunning)
      requires |passes| == 4 && (forall i :: 0 <= i < 4 ==> Fits(passes[i]))
      requires !initial ==> forall i :: 0 <= i < 4 ==> passes[i].live == Snap() && !passes[i].allocWrite
      modifies this, buckets
      ensures Valid() && !shadowAllocated && gcPos == Phase(PhaseNotRunning) && last <= 3
      ensures Fits(passes[last]) && |passes[last].marks| == |buckets| && |passes[last].live| == |buckets|
      ensures last == LastPass(old(needAnotherGc), passes, testRestart)
      ensures gcCount == old(gcCount) + LoopCounted(old(needAnotherGc), passes, testRestart)
      ensures needAnotherGc == LoopFlag(old(needAnotherGc), passes, testRestart)
      ensures loopRet == LoopRet(old(needAnotherGc), passes, testRestart)
      ensures loopRet != 0 ==> ret == loopRet && stripes == old(stripes) && devUsage == old(devUsage) && fsUsage == old(fsUsage)
      ensures loopRet != 0 ==> LiveIs(passes[last].live) && needAllocWrite == (old(needAllocWrite) || AllocWriteUpTo(passes, last))
      ensures loopRet == 0 ==> (ret == 0 || ret == -EINVAL)
      ensures loopRet == 0 ==>
          (ret == 0 <==> forall i :: 0 <= i < |passes[last].stripes| ==>
                            SameStripeShape(LiveStripe(old(stripes), i), passes[last].stripes[i]))
      ensures loopRet == 0 && ret == 0 ==>
          CleanDone(old(stripes), old(devUsage), old(fsUsage), old(needAllocWrite) || AllocWriteUpTo(passes, last),
                    passes[last], stripes, Snap(), devUsage, fsUsage, needAllocWrite)
      ensures loopRet == 0 && ret != 0 ==>
          && LiveIs(passes[last].live) && devUsage == old(devUsage) && fsUsage == old(fsUsage)
          && FailedDone(old(stripes), passes[last].stripes, stripes, old(needAllocWrite) || AllocWriteUpTo(passes, last),
                        needAllocWrite)
      ensures !initial && loopRet != 0 ==> Snap() == old(Snap()) && needAllocWrite == old(needAllocWrite)
    {
      var r;
      r, last := RestartPasses(passes, testRestart);
      loopRet := r;
      if !initial {
        NoAllocWriteUpTo(passes, last);
      }
      ret := GcOut(r, passes[last]);
    }

    /** bch2_gc_done when the restart loop left no error (line 1057). */
    method DoneIfClean(loopRet: int, ghost o: PassOutcome) returns (ret: int)
      requires Valid() && shadowAllocated && ShadowIs(o) && LiveIs(o.live)
      modifies this`stripes, this`needAllocWrite, this`devUsage, this`fsUsage, buckets
      ensures Valid() && shadowAllocated
      ensures loopRet != 0 ==> ret == loopRet && stripes == old(stripes) && devUsage == old(devUsage) && fsUsage == old(fsUsage)
      ensures loopRet != 0 ==> LiveIs(o.live) && needAllocWrite == old(needAllocWrite)
      ensures loopRet == 0 ==> ret == 0 || ret == -EINVAL
      ensures loopRet == 0 ==>
        (ret == 0 <==> forall i :: 0 <= i < |o.stripes| ==> SameStripeShape(LiveStripe(old(stripes), i), o.stripes[i]))
      ensures loopRet == 0 && ret == 0 ==>
        CleanDone(old(stripes), old(devUsage), old(fsUsage), old(needAllocWrite), o, stripes, Snap(), devUsage, fsUsage, needAllocWrite)
      ensures loopRet == 0 && ret != 0 ==>
        && LiveIs(o.live) && devUsage == old(devUsage) && fsUsage == old(fsUsage)
        && FailedDone(old(stripes), o.stripes, stripes, old(needAllocWrite), needAllocWrite)
    {
      ret := loopRet;
      if ret == 0 {
        ret := GcDone(o);
      }
    }

    /** The out: label of bch2_gc (lines 1052-1068): bch2_gc_done runs only when
        the loop left no error, and on both paths the position goes back to
        GC_PHASE_NOT_RUNNING and the shadow state is freed. */
    method GcOut(loopRet: int, ghost o: PassOutcome) returns (ret: int)
      requires Valid() && shadowAllocated && ShadowIs(o) && LiveIs(o.live)
      modifies this`stripes, this`needAllocWrite, this`devUsage, this`fsUsage, buckets,
               this`gcPos, this`gcBuckets, this`shadowAllocated, this`gcStripes, this`gcDevUsage, this`gcFsUsage
      ensures Valid() && !shadowAllocated && gcPos == Phase(PhaseNotRunning)
      ensures loopRet != 0 ==> ret == loopRet && stripes == old(stripes) && devUsage == old(devUsage) && fsUsage == old(fsUsage)
      ensures loopRet != 0 ==> LiveIs(o.live) && needAllocWrite == old(needAllocWrite)
      ensures loopRet == 0 ==> ret == 0 || ret == -EINVAL
      ensures loopRet == 0 ==>
        (ret == 0 <==> forall i :: 0 <= i < |o.stripes| ==> SameStripeShape(LiveStripe(old(stripes), i), o.stripes[i]))
      ensures loopRet == 0 && ret == 0 ==>
        CleanDone(old(stripes), old(devUsage), old(fsUsage), old(needAllocWrite), o, stripes, Snap(), devUsage, fsUsage, needAllocWrite)
      ensures loopRet == 0 && ret != 0 ==>
        && LiveIs(o.live) && devUsage == old(devUsage) && fsUsage == old(fsUsage)
        && FailedDone(old(stripes), o.stripes, stripes, old(needAllocWrite), needAllocWrite)
    {
      ret := DoneIfClean(loopRet, o);
      EndGc();
    }

    /** The position goes back to GC_PHASE_NOT_RUNNING and the shadow state is
        freed (lines 1064-1067). */
    method EndGc()
      requires Valid()
      modifies this`gcPos, this`gcBuckets, this`shadowAllocated, this`gcStripes, this`gcDevUsage, this`gcFsUsage
      ensures Valid() && !shadowAllocated && gcPos == Phase(PhaseNotRunning)
    {
      ResetGcPos();
      GcFree();
    }
  }

  /** Zeroed per-device counters, one record per device of the same size. */
  function ZeroDev(dev: seq<seq<nat>>): (r: seq<seq<nat>>)
    ensures |r| == |dev| && forall d :: 0 <= d < |dev| ==> r[d] == Zeros(|dev[d]|)
  {
    seq(|dev|, d requires 0 <= d < |dev| => Zeros(|dev[d]|))
  }

  /** The device loops of bch2_gc_start (lines 922-941 and 957-972): a zeroed
      shadow array per device, whose buckets then take their live bucket's
      generation and gen_valid bit. */
  method StartShadows(live: seq<array<Bucket>>) returns (sh: seq<array<Bucket>>)
    ensures |sh| == |live| && Distinct(sh)
    ensures forall d :: 0 <= d < |sh| ==> fresh(sh[d]) && sh[d].Length == live[d].Length
    ensures forall d, b :: 0 <= d < |live| && 0 <= b < live[d].Length ==> sh[d][b] == ShadowOf(live[d][b])
  {
    sh := [];
    var d := 0;
    while d < |live|
      invariant 0 <= d <= |live| && |sh| == d && Distinct(sh)
      invariant forall i :: 0 <= i < d ==> fresh(sh[i]) && sh[i].Length == live[i].Length
      invariant forall i, b :: 0 <= i < d && 0 <= b < live[i].Length ==> sh[i][b] == ShadowOf(live[i][b])
    {
      var a := StartShadow(live[d]);
      sh := sh + [a];
      d := d + 1;
    }
  }

  /** The device loop of bch2_gc_done (lines 835-849) over the live arrays and
      their shadows. */
  method DoneArrays(live: seq<array<Bucket>>, shadow: seq<array<Bucket>>) returns (changed: bool)
    requires |shadow| == |live| && Distinct(live) && Disjoint(live, shadow)
    requires forall d :: 0 <= d < |live| ==> shadow[d].Length == live[d].Length
    modifies live
    ensures forall d :: 0 <= d < |live| ==> DoneInto(old(live[d][..]), shadow[d][..], live[d][..])
    ensures changed <==> exists d :: 0 <= d < |live| && MarksDiffer(old(live[d][..]), shadow[d][..])
  {
    changed := false;
    var d := 0;
    while d < |live|
      invariant 0 <= d <= |live|
      invariant forall i :: 0 <= i < d ==> DoneInto(old(live[i][..]), shadow[i][..], live[i][..])
      invariant forall i :: d <= i < |live| ==> live[i][..] == old(live[i][..])
      invariant forall i :: 0 <= i < |shadow| ==> shadow[i][..] == old(shadow[i][..])
      invariant changed <==> exists i :: 0 <= i < d && MarksDiffer(old(live[i][..]), shadow[i][..])
    {
      var ch := DoneBuckets(live[d], shadow[d]);
      changed := changed || ch;
      d := d + 1;
    }
  }

  /** Fills one shadow bucket array with what marking left there. */
  method Fill(dst: array<Bucket>, src: seq<Bucket>)
    requires dst.Length == |src|
    modifies dst
    ensures dst[..] == src
  {
    var b := 0;
    while b < dst.Length
      invariant 0 <= b <= dst.Length
      invariant dst[..b] == src[..b]
    {
      dst[b] := src[b];
      b := b + 1;
      assert dst[..b] == dst[..b - 1] + [src[b - 1]];
    }
    assert dst[..] == dst[..dst.Length];
  }

  /** Positions in strictly increasing order, all after GC_PHASE_SB. */
  predicate WalkOk(walk: seq<GcPos>) {
    && (forall i :: 0 <= i < |walk| - 1 ==> PosLt(walk[i], walk[i + 1]))
    && (walk != [] ==> PosLt(Phase(PhaseSb), walk[0]))
  }

  /** What one marking pass leaves: bch2_gc_btrees' result, whether it asked for
      another pass, the shadow buckets, stripes and counters it marked, and the
      positions its btree walk and allocator marking set, in order.  When the
      btree walk fails, walk holds the positions set before the failure
      (bch2_gc_btree moves the position before it marks a node, lines 394-404).
      live is what the pass's pointer checks left in the live buckets and
      allocWrite whether they set NEED_ALLOC_WRITE (lines 184-186 and 197-203);
      only an initial pass runs them, so for any other pass live is the live
      buckets as they were and allocWrite is false. */
  datatype PassOutcome = PassOutcome(btreesRet: int, needAnother: bool, marks: Store,
                                     stripes: seq<Stripe>, devUsage: seq<seq<nat>>, fsUsage: seq<nat>,
                                     walk: seq<GcPos>, live: Store, allocWrite: bool)

  /** Whether some pass up to pass i set NEED_ALLOC_WRITE. */
  function AllocWriteUpTo(passes: seq<PassOutcome>, i: nat): bool
    requires i < |passes|
  {
    passes[i].allocWrite || (i > 0 && AllocWriteUpTo(passes, i - 1))
  }

  /** How the restart loop ends: its error, the number of passes made, the
      number that finished marking (each bumps gc_count), and the final
      NEED_ANOTHER_GC bit. */
  datatype LoopEnd = LoopEnd(ret: int, passes: nat, counted: nat, flag: bool)

  /** No pass up to i sets NEED_ALLOC_WRITE when none of them does. */
  lemma {:induction false} NoAllocWriteUpTo(passes: seq<PassOutcome>, i: nat)
    requires i < |passes| && forall k :: 0 <= k < |passes| ==> !passes[k].allocWrite
    ensures !AllocWriteUpTo(passes, i)
  {
    if i > 0 {
      NoAllocWriteUpTo(passes, i - 1);
    }
  }

  function Shift(e: LoopEnd, n: nat): LoopEnd {
    e.(counted := e.counted + n)
  }

  /** The restart loop of bch2_gc (lines 1012-1051) from pass iter on, with
      NEED_ANOTHER_GC at flag when the pass starts.  A pass whose btree walk fails
      ends the loop with that error.  Otherwise another pass is needed when the
      bit is set or, on the first pass only, when restarts are being tested; the
      test iter++ <= 2 allows three restarts, and a fourth pass that still needs
      another ends with -EINVAL. */
  function RestartLoop(flag: bool, passes: seq<PassOutcome>, testRestart: bool, iter: nat): (r: LoopEnd)
    requires iter <= 3 && |passes| == 4
    ensures iter < r.passes <= 4 && r.counted <= r.passes - iter
    decreases 3 - iter
  {
    var p := passes[iter];
    var f := flag || p.needAnother;
    if p.btreesRet != 0 then LoopEnd(p.btreesRet, iter + 1, 0, f)
    else if f || (iter == 0 && testRestart) then
      if iter <= 2 then Shift(RestartLoop(false, passes, testRestart, iter + 1), 1)
      else LoopEnd(-EINVAL, 4, 1, f)
    else LoopEnd(0, iter + 1, 1, f)
  }

  /** Pass i of the restart loop finished marking and asks for another pass:
      NEED_ANOTHER_GC was set during it (or, on the first pass, before it), or it
      is the first pass and restarts are being tested. */
  predicate Again(flag: bool, passes: seq<PassOutcome>, testRestart: bool, i: nat)
    requires i < |passes|
  {
    passes[i].btreesRet == 0 && ((i == 0 && (flag || testRestart)) || passes[i].needAnother)
  }

  /** The index of the last pass the loop makes: the first that asks for no
      other pass, or the fourth. */
  function LastPass(flag: bool, passes: seq<PassOutcome>, testRestart: bool): (i: nat)
    requires |passes| == 4
    ensures i <= 3
    ensures forall j :: 0 <= j < i ==> Again(flag, passes, testRestart, j)
    ensures i < 3 ==> !Again(flag, passes, testRestart, i)
  {
    if !Again(flag, passes, testRestart, 0) then 0
    else if !Again(flag, passes, testRestart, 1) then 1
    else if !Again(flag, passes, testRestart, 2) then 2
    else 3
  }

  /** A pass before the last that asks for another is followed by one. */
  lemma LastPassAfter(flag: bool, passes: seq<PassOutcome>, testRestart: bool, i: nat)
    requires |passes| == 4 && i < 3 && i <= LastPass(flag, passes, testRestart) && Again(flag, passes, testRestart, i)
    ensures i + 1 <= LastPass(flag, passes, testRestart)
  {
  }

  /** Where the restart loop stops: at the first pass that asks for no other,
      or at the fourth, with the loop's result, count and flag read off it. */
  lemma LoopExit(flag: bool, passes: seq<PassOutcome>, testRestart: bool, i: nat)
    requires |passes| == 4 && i <= 3 && i <= LastPass(flag, passes, testRestart)
    requires i < 3 ==> !Again(flag, passes, testRestart, i)
    ensures i == LastPass(flag, passes, testRestart)
    ensures LoopRet(flag, passes, testRestart) == if Again(flag, passes, testRestart, i) then -EINVAL else passes[i].btreesRet
    ensures LoopCounted(flag, passes, testRestart) == i + if passes[i].btreesRet == 0 then 1 else 0
    ensures LoopFlag(flag, passes, testRestart) == ((i == 0 && flag) || passes[i].needAnother)
  {
  }

  /** The loop's result: the last pass's btree error, -EINVAL when even the
      fourth pass asks for another, 0 otherwise. */
  function LoopRet(flag: bool, passes: seq<PassOutcome>, testRestart: bool): int
    requires |passes| == 4
  {
    var i := LastPass(flag, passes, testRestart);
    if passes[i].btreesRet != 0 then passes[i].btreesRet
    else if Again(flag, passes, testRestart, i) then -EINVAL
    else 0
  }

  /** Passes that finished marking: all but a last one that failed. */
  function LoopCounted(flag: bool, passes: seq<PassOutcome>, testRestart: bool): nat
    requires |passes| == 4
  {
    var i := LastPass(flag, passes, testRestart);
    i + if passes[i].btreesRet == 0 then 1 else 0
  }

  /** NEED_ANOTHER_GC when the loop ends. */
  function LoopFlag(flag: bool, passes: seq<PassOutcome>, testRestart: bool): bool
    requires |passes| == 4
  {
    var i := LastPass(flag, passes, testRestart);
    (i == 0 && flag) || passes[i].needAnother
  }

  /** The loop's outcome read off the passes directly agrees with RestartLoop. */
  lemma RestartLoopClosed(flag: bool, passes: seq<PassOutcome>, testRestart: bool)
    requires |passes| == 4
    ensures RestartLoop(flag, passes, testRestart, 0)
         == LoopEnd(LoopRet(flag, passes, testRestart), LastPass(flag, passes, testRestart) + 1,
                    LoopCounted(flag, passes, testRestart), LoopFlag(flag, passes, testRestart))
  {
    var i := LastPass(flag, passes, testRestart);
    var p := passes[i];
    var tail := if p.btreesRet != 0 then LoopEnd(p.btreesRet, i + 1, 0, LoopFlag(flag, passes, testRestart))
                else if Again(flag, passes, testRestart, i) then LoopEnd(-EINVAL, 4, 1, LoopFlag(flag, passes, testRestart))
                else LoopEnd(0, i + 1, 1, LoopFlag(flag, passes, testRestart));
    assert RestartLoop(if i == 0 then flag else false, passes, testRestart, i) == tail;
    if i == 1 {
      assert RestartLoop(flag, passes, testRestart, 0) == Shift(RestartLoop(false, passes, testRestart, 1), 1);
    } else if i == 2 {
      var t2 := RestartLoop(false, passes, testRestart, 2);
      assert RestartLoop(false, passes, testRestart, 1) == Shift(t2, 1);
      assert RestartLoop(flag, passes, testRestart, 0) == Shift(Shift(t2, 1), 1);
    } else if i == 3 {
      var t3 := RestartLoop(false, passes, testRestart, 3);
      assert RestartLoop(false, passes, testRestart, 2) == Shift(t3, 1);
      assert RestartLoop(false, passes, testRestart, 1) == Shift(Shift(t3, 1), 1);
      assert RestartLoop(flag, passes, testRestart, 0) == Shift(Shift(Shift(t3, 1), 1), 1);
    }
  }


  /** Some usage counter differs from its shadow. */
  predicate CountersDiffer(dev: seq<seq<nat>>, fs: seq<nat>, gcDev: seq<seq<nat>>, gcFs: seq<nat>) {
    dev != gcDev || fs != gcFs
  }

  /** Some shadow stripe's block counts differ from its live stripe's. */
  predicate StripesChanged(stripes: map<nat, Stripe>, gc: seq<Stripe>) {
    exists k :: 0 <= k < |gc| && LiveStripe(stripes, k).blockSectors != gc[k].blockSectors
  }

  /** The live buckets after bch2_gc_done copied in the marks of pass o: each
      bucket of o.live with its shadow's mark fields and oldest_gen. */
  predicate MarksTaken(o: PassOutcome, after: Store) {
    && |after| == |o.live| && |o.marks| == |o.live|
    && forall d :: 0 <= d < |after| ==> DoneInto(o.live[d], o.marks[d], after[d])
  }

  /** What bch2_gc_done leaves when every shadow stripe of pass o has its live
      stripe's shape: the stripes reconciled, the live buckets holding o's marks,
      the counters o's, and NEED_ALLOC_WRITE as AllocWriteAfterDone says. The
      state before is (stripes0, dev0, fs0, alloc0), the state after (stripes1,
      after, dev1, fs1, alloc1). */
  predicate CleanDone(stripes0: map<nat, Stripe>, dev0: seq<seq<nat>>, fs0: seq<nat>, alloc0: bool, o: PassOutcome,
                      stripes1: map<nat, Stripe>, after: Store, dev1: seq<seq<nat>>, fs1: seq<nat>, alloc1: bool)
    requires forall i :: 0 <= i < |o.stripes| ==> StripeShaped(o.stripes[i])
  {
    && DoneUpTo(stripes0, o.stripes, stripes1, |o.stripes|, StripesChanged(stripes0, o.stripes))
    && MarksTaken(o, after)
    && dev1 == o.devUsage && fs1 == o.fsUsage
    && alloc1 == AllocWriteAfterDone(alloc0, stripes0, dev0, fs0, o)
  }

  /** NEED_ALLOC_WRITE after a bch2_gc_done that found every stripe in shape:
      set before (alloc0), or because some stripe's block counts, some bucket's
      mark or some counter of pass o differed from the live state. */
  predicate AllocWriteAfterDone(alloc0: bool, stripes: map<nat, Stripe>, dev: seq<seq<nat>>, fs: seq<nat>, o: PassOutcome) {
    || alloc0 || StripesChanged(stripes, o.stripes)
    || (exists d :: 0 <= d < |o.live| && d < |o.marks| && MarksDiffer(o.live[d], o.marks[d]))
    || CountersDiffer(dev, fs, o.devUsage, o.fsUsage)
  }

  /** bch2_gc_done stopped at a shadow stripe of the wrong shape, as FailedAt
      says, and NEED_ALLOC_WRITE (alloc1) was set before (alloc0) or because a
      stripe before that one changed its block counts. */
  ghost predicate FailedDone(stripes: map<nat, Stripe>, gc: seq<Stripe>, live: map<nat, Stripe>, alloc0: bool, alloc1: bool)
    requires forall i :: 0 <= i < |gc| ==> StripeShaped(gc[i])
  {
    exists j, ch :: FailedAt(stripes, gc, live, j, ch) && (alloc1 <==> alloc0 || ch)
  }
}
