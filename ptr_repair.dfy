/** bch2_check_fix_ptrs: during the initial mark phase, compare each pointer of a
    key with the bucket it refers to, repair the bucket generation where the
    pointer is cached, and rewrite the key without the pointers that can no
    longer be trusted. */
module PtrRepair {
  import opened Base
  import opened Buckets

  /** What the check reads and writes: the live and shadow (gc) bucket stores,
      the NEED_ALLOC_WRITE and NEED_ANOTHER_GC flag bits, and the key's own
      do_update decision. */
  datatype FixState = FixState(
    live: Store,
    gc: Store,
    needAllocWrite: bool,
    needAnotherGc: bool,
    doUpdate: bool)

  predicate Shaped(st: FixState) {
    SameShape(st.live, st.gc)
  }

  /** genradix_ptr(&c->stripes[true], idx) is NULL, or the stripe is not alive.
      The shadow stripe table is indexed by stripe number. */
  predicate StripeDead(stripes: seq<Stripe>, idx: nat) {
    idx >= |stripes| || !stripes[idx].alive
  }

  /** The pointer carries a stripe entry whose stripe is missing or dead. */
  predicate EcDead(stripes: seq<Stripe>, p: Ptr) {
    p.ec.Some? && StripeDead(stripes, p.ec.value)
  }

  /** Both copies of the bucket adopt the pointer's generation (lines 184-186). */
  function AdoptGen(st: FixState, p: Ptr): (r: FixState)
    requires Shaped(st) && InStore(st.gc, p)
    ensures SameShape(r.live, st.live) && SameShape(r.gc, st.gc)
  {
    var g := Get(st.gc, p);
    var g2 := Get(st.live, p);
    st.(gc := Put(st.gc, p, g.(mark := g.mark.(gen := p.gen), genValid := true)),
        live := Put(st.live, p, g2.(mark := g2.mark.(gen := p.gen), genValid := true)),
        needAllocWrite := true)
  }

  /** A cached pointer from the future: both copies adopt its generation, the live
      bucket forgets its data type and sector counts, and another pass is
      requested (lines 198-204). */
  function AdoptFutureGen(st: FixState, p: Ptr): (r: FixState)
    requires Shaped(st) && InStore(st.gc, p)
    ensures SameShape(r.live, st.live) && SameShape(r.gc, st.gc)
  {
    var g := Get(st.gc, p);
    var g2 := Get(st.live, p);
    var m2 := g2.mark.(gen := p.gen, dataType := 0, dirtySectors := 0, cachedSectors := 0);
    st.(gc := Put(st.gc, p, g.(mark := g.mark.(gen := p.gen), genValid := true)),
        live := Put(st.live, p, g2.(mark := m2, genValid := true)),
        needAnotherGc := true,
        needAllocWrite := true)
  }

  /** One iteration of the pointer loop (lines 173-226): the four checks, in the
      source's order, each seeing the effect of the ones before it. */
  function CheckPtr(st: FixState, p: Ptr, stripes: seq<Stripe>): (r: FixState)
    requires Shaped(st) && InStore(st.gc, p)
    ensures SameShape(r.live, st.live) && SameShape(r.gc, st.gc)
  {
    var st1 :=
      if Get(st.gc, p).genValid then st
      else if p.cached then AdoptGen(st, p)
      else st.(doUpdate := true);
    var st2 :=
      if GenCmp(p.gen, Get(st1.gc, p).mark.gen) <= 0 then st1
      else if p.cached then AdoptFutureGen(st1, p)
      else st1.(doUpdate := true);
    var st3 :=
      if !p.cached && GenCmp(p.gen, Get(st2.gc, p).mark.gen) < 0 then st2.(doUpdate := true)
      else st2;
    if EcDead(stripes, p) then st3.(doUpdate := true) else st3
  }

  /** The whole pointer loop over a key. */
  function CheckPtrs(st: FixState, ptrs: seq<Ptr>, stripes: seq<Stripe>): (r: FixState)
    requires Shaped(st) && AllInStore(st.gc, ptrs)
    ensures SameShape(r.live, st.live) && SameShape(r.gc, st.gc)
    decreases |ptrs|
  {
    if ptrs == [] then st
    else
      var st1 := CheckPtr(st, ptrs[0], stripes);
      SameShapeInStore(st.gc, st1.gc, ptrs[1..]);
      CheckPtrs(st1, ptrs[1..], stripes)
  }

  /** The drop predicate of lines 251-254, evaluated on the shadow buckets after
      the loop: a cached pointer whose bucket has no valid generation or is behind
      it, or a dirty pointer that is stale. */
  predicate DropPtr(gc: Store, p: Ptr)
    requires InStore(gc, p)
  {
    var g := Get(gc, p);
    (p.cached && (!g.genValid || GenCmp(p.gen, g.mark.gen) > 0))
    || (!p.cached && GenCmp(p.gen, g.mark.gen) < 0)
  }

  /** The stripe entry of a pointer is removed when its stripe is missing or dead
      (the retry loop of lines 256-268). */
  function DropDeadStripe(stripes: seq<Stripe>, p: Ptr): (q: Ptr)
    ensures q.dev == p.dev && q.bucket == p.bucket && q.gen == p.gen && q.cached == p.cached
    ensures !EcDead(stripes, q)
    ensures !EcDead(stripes, p) ==> q == p
  {
    if EcDead(stripes, p) then p.(ec := None) else p
  }

  /** The pointers of the rewritten key (lines 245-268): the pointers the drop
      predicate spares, in their order, each without a dead stripe entry. */
  function RepairPtrs(gc: Store, stripes: seq<Stripe>, ptrs: seq<Ptr>): (r: seq<Ptr>)
    requires AllInStore(gc, ptrs)
    ensures |r| <= |ptrs|
    ensures forall j :: 0 <= j < |r| ==> !EcDead(stripes, r[j])
    decreases |ptrs|
  {
    if ptrs == [] then []
    else
      var rest := RepairPtrs(gc, stripes, ptrs[1..]);
      if DropPtr(gc, ptrs[0]) then rest else [DropDeadStripe(stripes, ptrs[0])] + rest
  }

  /** Each pointer of the rewritten key comes from a spared pointer of the old one,
      and every spared pointer is kept. */
  lemma {:induction false} RepairPtrsMembers(gc: Store, stripes: seq<Stripe>, ptrs: seq<Ptr>)
    requires AllInStore(gc, ptrs)
    ensures var r := RepairPtrs(gc, stripes, ptrs);
      && (forall q :: q in r ==> exists i :: 0 <= i < |ptrs| && !DropPtr(gc, ptrs[i]) && q == DropDeadStripe(stripes, ptrs[i]))
      && (forall i :: 0 <= i < |ptrs| && !DropPtr(gc, ptrs[i]) ==> DropDeadStripe(stripes, ptrs[i]) in r)
    decreases |ptrs|
  {
    if ptrs != [] {
      var tail := ptrs[1..];
      RepairPtrsMembers(gc, stripes, tail);
      var rest := RepairPtrs(gc, stripes, tail);
      forall q | q in rest
        ensures exists i :: 0 <= i < |ptrs| && !DropPtr(gc, ptrs[i]) && q == DropDeadStripe(stripes, ptrs[i])
      {
        var j :| 0 <= j < |tail| && !DropPtr(gc, tail[j]) && q == DropDeadStripe(stripes, tail[j]);
        assert tail[j] == ptrs[j + 1];
      }
      forall i | 0 <= i < |ptrs| && !DropPtr(gc, ptrs[i])
        ensures DropDeadStripe(stripes, ptrs[i]) in RepairPtrs(gc, stripes, ptrs)
      {
        if i > 0 {
          assert ptrs[i] == tail[i - 1];
        }
      }
    }
  }

  /** The rewritten key still refers to distinct buckets. */
  lemma {:induction false} RepairPtrsDistinct(gc: Store, stripes: seq<Stripe>, ptrs: seq<Ptr>)
    requires AllInStore(gc, ptrs) && DistinctBuckets(ptrs)
    ensures DistinctBuckets(RepairPtrs(gc, stripes, ptrs))
    decreases |ptrs|
  {
    if ptrs != [] {
      var tail := ptrs[1..];
      assert DistinctBuckets(tail) by {
        forall i, j | 0 <= i < j < |tail| ensures !SameBucket(tail[i], tail[j]) {
          assert tail[i] == ptrs[i + 1] && tail[j] == ptrs[j + 1];
        }
      }
      RepairPtrsDistinct(gc, stripes, tail);
      RepairPtrsMembers(gc, stripes, tail);
      var rest := RepairPtrs(gc, stripes, tail);
      if !DropPtr(gc, ptrs[0]) {
        var q0 := DropDeadStripe(stripes, ptrs[0]);
        var r := [q0] + rest;
        forall j | 0 <= j < |rest| ensures !SameBucket(q0, rest[j]) {
          assert rest[j] in rest;
          var i :| 0 <= i < |tail| && !DropPtr(gc, tail[i]) && rest[j] == DropDeadStripe(stripes, tail[i]);
          assert tail[i] == ptrs[i + 1];
        }
        forall a, b | 0 <= a < b < |r| ensures !SameBucket(r[a], r[b]) {
          if a == 0 {
            assert r[b] == rest[b - 1];
          } else {
            assert r[a] == rest[a - 1] && r[b] == rest[b - 1];
          }
        }
      }
    }
  }

  /** The outcome of bch2_check_fix_ptrs: its return code, the new state, the key
      the caller goes on with, and whether a replacement key was staged in the
      journal keys. */
  datatype FixResult = FixResult(ret: int, state: FixState, key: Key, staged: bool)

  /** bch2_check_fix_ptrs (lines 163-278).  Staging the key in the journal keys is
      taken to succeed. */
  function CheckFixPtrs(st0: FixState, isRoot: bool, k: Key, stripes: seq<Stripe>): (r: FixResult)
    requires Shaped(st0) && AllInStore(st0.gc, k.ptrs)
    ensures Shaped(r.state) && SameShape(r.state.gc, st0.gc)
    ensures r.ret == 0 || r.ret == -EINVAL
    ensures r.ret == -EINVAL <==> isRoot && r.state.doUpdate
    ensures r.staged <==> !isRoot && r.state.doUpdate
    ensures !r.staged ==> r.key == k
    ensures r.staged ==> r.key.pos == k.pos && r.key.version == k.version
                         && r.key.ptrs == RepairPtrs(r.state.gc, stripes, k.ptrs)
  {
    var st := CheckPtrs(st0.(doUpdate := false), k.ptrs, stripes);
    if !st.doUpdate then FixResult(0, st, k, false)
    else if isRoot then FixResult(-EINVAL, st, k, false)
    else FixResult(0, st, k.(ptrs := RepairPtrs(st.gc, stripes, k.ptrs)), true)
  }

  // ---------------------------------------------------------------------------
  // What the check decides, stated against the buckets as they were before the
  // key was looked at.

  /** A dirty pointer the check objects to: its bucket has no valid generation,
      or the generations differ (the pointer is stale or from the future). */
  predicate DirtyFlagged(gc: Store, p: Ptr)
    requires InStore(gc, p)
  {
    !p.cached && (!Get(gc, p).genValid || GenCmp(p.gen, Get(gc, p).mark.gen) != 0)
  }

  predicate PtrFlagged(gc: Store, stripes: seq<Stripe>, p: Ptr)
    requires InStore(gc, p)
  {
    DirtyFlagged(gc, p) || EcDead(stripes, p)
  }

  /** One pointer: what it does to do_update, to its own bucket and to the rest. */
  lemma CheckPtrEffect(st: FixState, p: Ptr, stripes: seq<Stripe>)
    requires Shaped(st) && InStore(st.gc, p)
    ensures var r := CheckPtr(st, p, stripes);
      && r.doUpdate == (st.doUpdate || PtrFlagged(st.gc, stripes, p))
      && (p.cached ==> !DropPtr(r.gc, p))
      && (!p.cached ==> r.gc == st.gc && r.live == st.live
                        && r.needAllocWrite == st.needAllocWrite && r.needAnotherGc == st.needAnotherGc)
      && (forall q :: InStore(st.gc, q) && !SameBucket(q, p) ==>
            Get(r.gc, q) == Get(st.gc, q) && Get(r.live, q) == Get(st.live, q))
  {
    CheckPtrDecision(st, p, stripes);
    CheckPtrFrame(st, p, stripes);
  }

  lemma CheckPtrDecision(st: FixState, p: Ptr, stripes: seq<Stripe>)
    requires Shaped(st) && InStore(st.gc, p)
    ensures CheckPtr(st, p, stripes).doUpdate == (st.doUpdate || PtrFlagged(st.gc, stripes, p))
    ensures p.cached ==> !DropPtr(CheckPtr(st, p, stripes).gc, p)
    ensures !p.cached ==> CheckPtr(st, p, stripes) == st.(doUpdate := CheckPtr(st, p, stripes).doUpdate)
  {
    if p.cached {
      CachedPtrRepaired(st, p, stripes);
    } else {
      DirtyPtrDecision(st, p, stripes);
    }
  }

  /** A cached pointer leaves its shadow bucket valid and not behind it. */
  lemma CachedPtrRepaired(st: FixState, p: Ptr, stripes: seq<Stripe>)
    requires Shaped(st) && InStore(st.gc, p) && p.cached
    ensures CheckPtr(st, p, stripes).doUpdate == (st.doUpdate || EcDead(stripes, p))
    ensures !DropPtr(CheckPtr(st, p, stripes).gc, p)
  {
    GenCmpZero(p.gen, p.gen);
  }

  /** A dirty pointer only decides do_update. */
  lemma DirtyPtrDecision(st: FixState, p: Ptr, stripes: seq<Stripe>)
    requires Shaped(st) && InStore(st.gc, p) && !p.cached
    ensures CheckPtr(st, p, stripes).doUpdate == (st.doUpdate || PtrFlagged(st.gc, stripes, p))
    ensures CheckPtr(st, p, stripes) == st.(doUpdate := CheckPtr(st, p, stripes).doUpdate)
  {
  }

  lemma CheckPtrFrame(st: FixState, p: Ptr, stripes: seq<Stripe>)
    requires Shaped(st) && InStore(st.gc, p)
    ensures var r := CheckPtr(st, p, stripes);
      forall q :: InStore(st.gc, q) && !SameBucket(q, p) ==>
        Get(r.gc, q) == Get(st.gc, q) && Get(r.live, q) == Get(st.live, q)
  {
  }

  /** A cached pointer repairs its bucket (lines 178-208): a bucket without a
      valid generation, or one behind the pointer, takes the pointer's generation
      in both copies; only the second case clears the live bucket's data type and
      sector counts and asks for another pass.  Neither touches do_update. */
  lemma CachedPtrAdoptsGen(st: FixState, p: Ptr, stripes: seq<Stripe>)
    requires Shaped(st) && InStore(st.gc, p) && p.cached
    ensures var r := CheckPtr(st, p, stripes);
      var g := Get(st.gc, p);
      var g2 := Get(st.live, p);
      && r.doUpdate == (st.doUpdate || EcDead(stripes, p))
      && (!g.genValid ==>
            && Get(r.gc, p) == g.(mark := g.mark.(gen := p.gen), genValid := true)
            && Get(r.live, p) == g2.(mark := g2.mark.(gen := p.gen), genValid := true)
            && r.needAllocWrite && r.needAnotherGc == st.needAnotherGc)
      && (g.genValid && GenCmp(p.gen, g.mark.gen) > 0 ==>
            && Get(r.gc, p) == g.(mark := g.mark.(gen := p.gen))
            && Get(r.live, p) == g2.(mark := g2.mark.(gen := p.gen, dataType := 0, dirtySectors := 0, cachedSectors := 0), genValid := true)
            && r.needAllocWrite && r.needAnotherGc)
      && (g.genValid && GenCmp(p.gen, g.mark.gen) <= 0 ==>
            r == st.(doUpdate := r.doUpdate))
  {
    GenCmpZero(p.gen, p.gen);
  }

  /** Pointers never touch buckets no pointer of theirs refers to. */
  lemma {:induction false} CheckPtrsFrame(st: FixState, ptrs: seq<Ptr>, stripes: seq<Stripe>, q: Ptr)
    requires Shaped(st) && AllInStore(st.gc, ptrs) && InStore(st.gc, q) && Untouched(ptrs, q)
    ensures var r := CheckPtrs(st, ptrs, stripes);
      Get(r.gc, q) == Get(st.gc, q) && Get(r.live, q) == Get(st.live, q)
    decreases |ptrs|
  {
    if ptrs != [] {
      var st1 := CheckPtr(st, ptrs[0], stripes);
      CheckPtrEffect(st, ptrs[0], stripes);
      SameShapeInStore(st.gc, st1.gc, ptrs[1..]);
      assert Untouched(ptrs[1..], q) by {
        forall i | 0 <= i < |ptrs[1..]| ensures !SameBucket(ptrs[1..][i], q) {
          assert ptrs[1..][i] == ptrs[i + 1];
        }
      }
      CheckPtrsFrame(st1, ptrs[1..], stripes, q);
    }
  }

  lemma TailDistinct(ptrs: seq<Ptr>)
    requires ptrs != [] && DistinctBuckets(ptrs)
    ensures DistinctBuckets(ptrs[1..]) && Untouched(ptrs[1..], ptrs[0])
  {
    var tail := ptrs[1..];
    forall i, j | 0 <= i < j < |tail| ensures !SameBucket(tail[i], tail[j]) {
      assert tail[i] == ptrs[i + 1] && tail[j] == ptrs[j + 1];
    }
    forall i | 0 <= i < |tail| ensures !SameBucket(tail[i], ptrs[0]) {
      assert tail[i] == ptrs[i + 1];
    }
  }

  /** The pointers after p see their buckets as they were before p. */
  lemma CheckPtrKeepsOthers(st: FixState, p: Ptr, tail: seq<Ptr>, stripes: seq<Stripe>)
    requires Shaped(st) && InStore(st.gc, p) && AllInStore(st.gc, tail) && Untouched(tail, p)
    ensures var st1 := CheckPtr(st, p, stripes);
      forall i :: 0 <= i < |tail| ==>
        InStore(st1.gc, tail[i]) && Get(st1.gc, tail[i]) == Get(st.gc, tail[i])
        && PtrFlagged(st1.gc, stripes, tail[i]) == PtrFlagged(st.gc, stripes, tail[i])
  {
    CheckPtrEffect(st, p, stripes);
    var st1 := CheckPtr(st, p, stripes);
    forall i | 0 <= i < |tail|
      ensures InStore(st1.gc, tail[i]) && Get(st1.gc, tail[i]) == Get(st.gc, tail[i])
    {
      assert !SameBucket(tail[i], p);
    }
  }

  lemma AnyFlaggedSplit(gc: Store, stripes: seq<Stripe>, ptrs: seq<Ptr>)
    requires AllInStore(gc, ptrs) && ptrs != []
    ensures (exists i :: 0 <= i < |ptrs| && PtrFlagged(gc, stripes, ptrs[i]))
        <==> PtrFlagged(gc, stripes, ptrs[0]) || exists i :: 0 <= i < |ptrs| - 1 && PtrFlagged(gc, stripes, ptrs[1..][i])
  {
    if exists i :: 0 <= i < |ptrs| && PtrFlagged(gc, stripes, ptrs[i]) {
      var i :| 0 <= i < |ptrs| && PtrFlagged(gc, stripes, ptrs[i]);
      if i > 0 { assert ptrs[i] == ptrs[1..][i - 1]; }
    }
  }

  /** For a key whose pointers refer to distinct buckets, do_update ends up set
      exactly when some dirty pointer is flagged or some stripe entry is dead,
      judged on the buckets as they were before the key was looked at. */
  lemma {:induction false} CheckPtrsDoUpdate(st: FixState, ptrs: seq<Ptr>, stripes: seq<Stripe>)
    requires Shaped(st) && AllInStore(st.gc, ptrs) && DistinctBuckets(ptrs)
    ensures CheckPtrs(st, ptrs, stripes).doUpdate
            == (st.doUpdate || exists i :: 0 <= i < |ptrs| && PtrFlagged(st.gc, stripes, ptrs[i]))
    decreases |ptrs|
  {
    if ptrs != [] {
      var p := ptrs[0];
      var st1 := CheckPtr(st, p, stripes);
      var tail := ptrs[1..];
      TailDistinct(ptrs);
      CheckPtrDecision(st, p, stripes);
      SameShapeInStore(st.gc, st1.gc, tail);
      CheckPtrKeepsOthers(st, p, tail, stripes);
      CheckPtrsDoUpdate(st1, tail, stripes);
      assert CheckPtrs(st, ptrs, stripes) == CheckPtrs(st1, tail, stripes);
      AnyFlaggedSplit(st.gc, stripes, ptrs);
      var after := exists i :: 0 <= i < |tail| && PtrFlagged(st1.gc, stripes, tail[i]);
      var before := exists i :: 0 <= i < |tail| && PtrFlagged(st.gc, stripes, tail[i]);
      if after {
        var i :| 0 <= i < |tail| && PtrFlagged(st1.gc, stripes, tail[i]);
        assert PtrFlagged(st.gc, stripes, tail[i]);
      }
      if before {
        var i :| 0 <= i < |tail| && PtrFlagged(st.gc, stripes, tail[i]);
        assert PtrFlagged(st1.gc, stripes, tail[i]);
      }
    }
  }

  /** For a key whose pointers refer to distinct buckets: no cached pointer ends up
      dropped, dirty pointers leave their buckets alone, and a dirty pointer is
      dropped exactly when it was stale to begin with. */
  lemma {:induction false} CheckPtrsDrops(st: FixState, ptrs: seq<Ptr>, stripes: seq<Stripe>)
    requires Shaped(st) && AllInStore(st.gc, ptrs) && DistinctBuckets(ptrs)
    ensures var r := CheckPtrs(st, ptrs, stripes);
      && (forall i :: 0 <= i < |ptrs| && ptrs[i].cached ==> !DropPtr(r.gc, ptrs[i]))
      && (forall i :: 0 <= i < |ptrs| && !ptrs[i].cached ==>
            Get(r.gc, ptrs[i]) == Get(st.gc, ptrs[i])
            && (DropPtr(r.gc, ptrs[i]) <==> GenCmp(ptrs[i].gen, Get(st.gc, ptrs[i]).mark.gen) < 0))
    decreases |ptrs|
  {
    if ptrs != [] {
      var p := ptrs[0];
      var st1 := CheckPtr(st, p, stripes);
      var tail := ptrs[1..];
      TailDistinct(ptrs);
      CheckPtrEffect(st, p, stripes);
      SameShapeInStore(st.gc, st1.gc, tail);
      CheckPtrKeepsOthers(st, p, tail, stripes);
      CheckPtrsDrops(st1, tail, stripes);
      CheckPtrsFrame(st1, tail, stripes, p);
      var r := CheckPtrs(st, ptrs, stripes);
      assert r == CheckPtrs(st1, tail, stripes);
      forall i | 0 <= i < |ptrs|
        ensures ptrs[i].cached ==> !DropPtr(r.gc, ptrs[i])
        ensures !ptrs[i].cached ==>
            Get(r.gc, ptrs[i]) == Get(st.gc, ptrs[i])
            && (DropPtr(r.gc, ptrs[i]) <==> GenCmp(ptrs[i].gen, Get(st.gc, ptrs[i]).mark.gen) < 0)
      {
        if i > 0 {
          assert ptrs[i] == tail[i - 1];
        }
      }
    }
  }

  /** The repair settles: when no dirty pointer of a key is in the future or points
      at a bucket without a valid generation, checking the rewritten key against
      the repaired state finds nothing more to change. */
  lemma RepairSettles(st: FixState, k: Key, stripes: seq<Stripe>)
    requires Shaped(st) && AllInStore(st.gc, k.ptrs) && DistinctBuckets(k.ptrs)
    requires forall i :: 0 <= i < |k.ptrs| && !k.ptrs[i].cached ==>
               Get(st.gc, k.ptrs[i]).genValid && GenCmp(k.ptrs[i].gen, Get(st.gc, k.ptrs[i]).mark.gen) <= 0
    ensures var r := CheckFixPtrs(st, false, k, stripes);
      AllInStore(r.state.gc, r.key.ptrs)
      && var r2 := CheckFixPtrs(r.state, false, r.key, stripes);
         !r2.staged && r2.ret == 0 && r2.key == r.key
  {
    var r := CheckFixPtrs(st, false, k, stripes);
    var s0 := st.(doUpdate := false);
    CheckPtrsDoUpdate(s0, k.ptrs, stripes);
    CheckPtrsDrops(s0, k.ptrs, stripes);
    SameShapeInStore(st.gc, r.state.gc, k.ptrs);
    if r.staged {
      var ptrs2 := r.key.ptrs;
      RepairPtrsMembers(r.state.gc, stripes, k.ptrs);
      assert AllInStore(r.state.gc, ptrs2) by {
        forall j | 0 <= j < |ptrs2| ensures InStore(r.state.gc, ptrs2[j]) {
          assert ptrs2[j] in ptrs2;
        }
      }
      var s1 := r.state.(doUpdate := false);
      RepairPtrsMembers(r.state.gc, stripes, k.ptrs);
      RepairPtrsDistinct(r.state.gc, stripes, k.ptrs);
      CheckPtrsDoUpdate(s1, ptrs2, stripes);
      forall j | 0 <= j < |ptrs2| ensures !PtrFlagged(r.state.gc, stripes, ptrs2[j]) {
        assert ptrs2[j] in ptrs2;
        var i :| 0 <= i < |k.ptrs| && !DropPtr(r.state.gc, k.ptrs[i]) && ptrs2[j] == DropDeadStripe(stripes, k.ptrs[i]);
        GenCmpZero(k.ptrs[i].gen, Get(st.gc, k.ptrs[i]).mark.gen);
      }
    } else {
      assert r.key == k;
      CheckPtrsDoUpdate(r.state.(doUpdate := false), k.ptrs, stripes);
      forall i | 0 <= i < |k.ptrs| ensures !PtrFlagged(r.state.gc, stripes, k.ptrs[i]) {
        assert !PtrFlagged(st.gc, stripes, k.ptrs[i]);
      }
    }
  }

  /** The scenario of a dirty pointer left behind by its bucket: bucket 5 of
      device 0 is at generation 5, the key's only pointer is a dirty one to it at
      generation 3; the key is rewritten with no pointers left. */
  lemma StaleDirtyPtrRemoved(st: FixState, pos: Pos, version: nat, stripes: seq<Stripe>)
    requires Shaped(st) && |st.gc| > 0 && |st.gc[0]| > 5
    requires st.gc[0][5].mark.gen == 5 && st.gc[0][5].genValid
    ensures var k := Key(pos, version, [Ptr(0, 5, 3, false, None)]);
      var r := CheckFixPtrs(st, false, k, stripes);
      r.ret == 0 && r.staged && r.key.ptrs == [] && r.state.gc == st.gc
  {
    var p := Ptr(0, 5, 3, false, None);
    var s0 := st.(doUpdate := false);
    assert GenCmp(3, 5) == -2;
    DirtyPtrDecision(s0, p, stripes);
    var s1 := CheckPtr(s0, p, stripes);
    assert [p][1..] == [];
    assert CheckPtrs(s0, [p], stripes) == s1;
    assert DropPtr(s1.gc, p);
  }

  /** What the rewrite does not fix: a dirty pointer from the future is flagged but
      kept, so the rewritten key is flagged again by the next check. */
  lemma FutureDirtyPtrKept(st: FixState, k: Key, stripes: seq<Stripe>, i: nat)
    requires Shaped(st) && AllInStore(st.gc, k.ptrs) && DistinctBuckets(k.ptrs)
    requires i < |k.ptrs| && !k.ptrs[i].cached && GenCmp(k.ptrs[i].gen, Get(st.gc, k.ptrs[i]).mark.gen) > 0
    ensures var r := CheckFixPtrs(st, false, k, stripes);
      r.staged && DropDeadStripe(stripes, k.ptrs[i]) in r.key.ptrs
      && PtrFlagged(r.state.gc, stripes, DropDeadStripe(stripes, k.ptrs[i]))
  {
    var s0 := st.(doUpdate := false);
    CheckPtrsDoUpdate(s0, k.ptrs, stripes);
    CheckPtrsDrops(s0, k.ptrs, stripes);
    var r := CheckFixPtrs(st, false, k, stripes);
    RepairPtrsMembers(r.state.gc, stripes, k.ptrs);
    assert PtrFlagged(st.gc, stripes, k.ptrs[i]);
    GenCmpAsymmetric(k.ptrs[i].gen, Get(st.gc, k.ptrs[i]).mark.gen);
  }
}
