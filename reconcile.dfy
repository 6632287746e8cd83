/** The shadow (gc) copy of the allocation information: how bch2_gc_start sets a
    device's shadow bucket array up, how bch2_gc_done copies what marking found
    back into the live arrays and stripes, and the two bucket loops of
    bch2_gc_gens.  Each loop works in place on one device's array. */
module Reconcile {
  import opened Base
  import opened Buckets
  import opened Gens

  /** The shadow bucket bch2_gc_start makes from a live one (lines 926-928 and
      965-971): a zeroed bucket that takes over the generation, as gen and as
      oldest_gen, and the gen_valid bit. */
  function ShadowOf(b: Bucket): Bucket {
    Bucket(Mark(b.mark.gen, 0, false, false, 0, 0), b.mark.gen, b.genValid, 0)
  }

  /** The shadow array of one device: allocated zeroed, then filled from the live
      array.  The allocation is taken to succeed. */
  method StartShadow(src: array<Bucket>) returns (dst: array<Bucket>)
    ensures fresh(dst) && dst.Length == src.Length
    ensures forall b :: 0 <= b < dst.Length ==>
      && dst[b].mark.gen == src[b].mark.gen && dst[b].oldestGen == src[b].mark.gen
      && dst[b].genValid == src[b].genValid
      && dst[b].mark.dataType == 0 && !dst[b].mark.ownedByAllocator && !dst[b].mark.stripe
      && dst[b].mark.dirtySectors == 0 && dst[b].mark.cachedSectors == 0 && dst[b].gcGen == 0
  {
    dst := new Bucket[src.Length](_ => ZeroBucket);
    var b := 0;
    while b < src.Length
      invariant 0 <= b <= src.Length
      invariant forall i :: 0 <= i < b ==> dst[i] == ShadowOf(src[i])
      invariant forall i :: b <= i < dst.Length ==> dst[i] == ZeroBucket
    {
      dst[b] := dst[b].(mark := dst[b].mark.(gen := src[b].mark.gen), oldestGen := src[b].mark.gen,
                        genValid := src[b].genValid);
      b := b + 1;
    }
  }

  /** The bucket loop of bch2_gc_done (lines 836-849): each of the six mark fields
      that differs is copied from the shadow and reported, oldest_gen is copied
      as it is.  The rest of the live bucket stays. */
  method DoneBuckets(dst: array<Bucket>, src: array<Bucket>) returns (changed: bool)
    requires dst != src && dst.Length == src.Length
    modifies dst
    ensures DoneInto(old(dst[..]), src[..], dst[..])
    ensures changed <==> MarksDiffer(old(dst[..]), src[..])
  {
    changed := false;
    var b := 0;
    while b < src.Length
      invariant 0 <= b <= src.Length
      invariant forall i :: 0 <= i < b ==> dst[i] == old(dst[i]).(mark := src[i].mark, oldestGen := src[i].oldestGen)
      invariant forall i :: b <= i < dst.Length ==> dst[i] == old(dst[i])
      invariant changed <==> exists i :: 0 <= i < b && old(dst[i]).mark != src[i].mark
    {
      var m := dst[b].mark;
      var s := src[b].mark;
      if m.gen != s.gen { m := m.(gen := s.gen); changed := true; }
      if m.dataType != s.dataType { m := m.(dataType := s.dataType); changed := true; }
      if m.ownedByAllocator != s.ownedByAllocator { m := m.(ownedByAllocator := s.ownedByAllocator); changed := true; }
      if m.stripe != s.stripe { m := m.(stripe := s.stripe); changed := true; }
      if m.dirtySectors != s.dirtySectors { m := m.(dirtySectors := s.dirtySectors); changed := true; }
      if m.cachedSectors != s.cachedSectors { m := m.(cachedSectors := s.cachedSectors); changed := true; }
      assert m == s;
      dst[b] := dst[b].(mark := m, oldestGen := src[b].oldestGen);
      b := b + 1;
    }
  }

  /** A device's live buckets after bch2_gc_done: each took the shadow's mark and
      oldest_gen and kept the rest. */
  predicate DoneInto(before: seq<Bucket>, shadow: seq<Bucket>, after: seq<Bucket>) {
    |after| == |before| && |shadow| == |before|
    && forall b :: 0 <= b < |before| ==>
      after[b] == before[b].(mark := shadow[b].mark, oldestGen := shadow[b].oldestGen)
  }

  /** Some live bucket's mark differs from its shadow's. */
  predicate MarksDiffer(before: seq<Bucket>, shadow: seq<Bucket>) {
    exists b :: 0 <= b < |before| && b < |shadow| && before[b].mark != shadow[b].mark
  }

  /** Number of nonzero entries. */
  function CountNonzero(s: seq<nat>): (n: nat)
    ensures n <= |s|
    ensures n == 0 <==> forall i :: 0 <= i < |s| ==> s[i] == 0
    ensures n == |s| <==> forall i :: 0 <= i < |s| ==> s[i] != 0
    decreases |s|
  {
    if s == [] then 0
    else
      var init := s[..|s| - 1];
      assert forall i :: 0 <= i < |s| - 1 ==> s[i] == init[i];
      CountNonzero(init) + (if s[|s| - 1] != 0 then 1 else 0)
  }

  /** The blocks_nonempty loop of bch2_gc_done (lines 824-826). */
  method CountNonempty(blockSectors: seq<nat>, nrBlocks: nat) returns (n: nat)
    requires nrBlocks <= |blockSectors|
    ensures n == CountNonzero(blockSectors[..nrBlocks])
  {
    n := 0;
    var i := 0;
    while i < nrBlocks
      invariant 0 <= i <= nrBlocks
      invariant n == CountNonzero(blockSectors[..i])
    {
      assert blockSectors[..i + 1][..i] == blockSectors[..i];
      n := n + if blockSectors[i] != 0 then 1 else 0;
      i := i + 1;
    }
  }

  /** The live stripe with the given index; genradix_ptr_alloc hands out a zeroed
      stripe for one never written. */
  function LiveStripe(stripes: map<nat, Stripe>, i: nat): Stripe {
    if i in stripes then stripes[i] else ZeroStripe
  }

  /** The shape check of lines 810-818: a live stripe and its shadow must agree
      on everything except the per-block counts. */
  predicate SameStripeShape(dst: Stripe, src: Stripe) {
    dst.alive == src.alive && dst.sectors == src.sectors && dst.algorithm == src.algorithm
    && dst.nrBlocks == src.nrBlocks && dst.nrRedundant == src.nrRedundant
  }

  /** A live stripe once reconciled with its shadow. */
  function Reconciled(dst: Stripe, src: Stripe): Stripe
    requires StripeShaped(src)
  {
    dst.(blockSectors := src.blockSectors, blocksNonempty := CountNonzero(src.blockSectors[..src.nrBlocks]))
  }

  /** The stripe pass stopped at shadow stripe j: the first whose shape differs.
      The stripes before it are reconciled, j itself has been allocated in the
      live table, and the rest are untouched; changed says whether a block count
      of a stripe before j differed, since those were copied (and
      NEED_ALLOC_WRITE set) before the pass stopped. */
  predicate FailedAt(stripes: map<nat, Stripe>, gc: seq<Stripe>, live: map<nat, Stripe>, j: nat, changed: bool)
    requires forall i :: 0 <= i < |gc| ==> StripeShaped(gc[i])
  {
    && j < |gc| && !SameStripeShape(LiveStripe(stripes, j), gc[j])
    && (forall i :: 0 <= i < j ==> SameStripeShape(LiveStripe(stripes, i), gc[i]))
    && (forall i :: 0 <= i < j ==> i in live && live[i] == Reconciled(LiveStripe(stripes, i), gc[i]))
    && j in live && live[j] == LiveStripe(stripes, j)
    && (forall i :: i in live && i > j ==> i in stripes && live[i] == stripes[i])
    && (changed <==> exists k :: 0 <= k < j && LiveStripe(stripes, k).blockSectors != gc[k].blockSectors)
  }

  /** The first i shadow stripes have been reconciled into live and the others
      are as they were; changed says whether any block count differed. */
  predicate DoneUpTo(stripes: map<nat, Stripe>, gc: seq<Stripe>, live: map<nat, Stripe>, i: nat, changed: bool)
    requires forall k :: 0 <= k < |gc| ==> StripeShaped(gc[k])
  {
    && i <= |gc|
    && (forall k :: 0 <= k < i ==> SameStripeShape(LiveStripe(stripes, k), gc[k]))
    && (forall k :: 0 <= k < i ==> k in live && live[k] == Reconciled(LiveStripe(stripes, k), gc[k]))
    && (forall k :: k in live && k >= i ==> k in stripes && live[k] == stripes[k])
    && (forall k :: k in stripes ==> k in live)
    && (changed <==> exists k :: 0 <= k < i && LiveStripe(stripes, k).blockSectors != gc[k].blockSectors)
  }

  lemma DoneStep(stripes: map<nat, Stripe>, gc: seq<Stripe>, live: map<nat, Stripe>, i: nat, changed: bool, ch: bool)
    requires forall k :: 0 <= k < |gc| ==> StripeShaped(gc[k])
    requires i < |gc| && DoneUpTo(stripes, gc, live, i, changed)
    requires SameStripeShape(LiveStripe(stripes, i), gc[i])
    requires ch <==> LiveStripe(stripes, i).blockSectors != gc[i].blockSectors
    ensures DoneUpTo(stripes, gc, live[i := Reconciled(LiveStripe(stripes, i), gc[i])], i + 1, changed || ch)
  {
    DoneStepLive(stripes, gc, live, i, changed);
    DoneStepChanged(stripes, gc, i, changed, ch);
  }

  /** The live table after reconciling stripe i. */
  lemma DoneStepLive(stripes: map<nat, Stripe>, gc: seq<Stripe>, live: map<nat, Stripe>, i: nat, changed: bool)
    requires forall k :: 0 <= k < |gc| ==> StripeShaped(gc[k])
    requires i < |gc| && DoneUpTo(stripes, gc, live, i, changed)
    ensures var l2 := live[i := Reconciled(LiveStripe(stripes, i), gc[i])];
      && (forall k :: 0 <= k < i + 1 ==> k in l2 && l2[k] == Reconciled(LiveStripe(stripes, k), gc[k]))
      && (forall k :: k in l2 && k >= i + 1 ==> k in stripes && l2[k] == stripes[k])
      && (forall k :: k in stripes ==> k in l2)
  {
    var l2 := live[i := Reconciled(LiveStripe(stripes, i), gc[i])];
    forall k | 0 <= k < i + 1 ensures k in l2 && l2[k] == Reconciled(LiveStripe(stripes, k), gc[k]) {
      if k < i {
        assert k in live && l2[k] == live[k];
      }
    }
    forall k | k in l2 && k >= i + 1 ensures k in stripes && l2[k] == stripes[k] {
      assert k in live && l2[k] == live[k];
    }
  }

  /** The changed bit after stripe i. */
  lemma DoneStepChanged(stripes: map<nat, Stripe>, gc: seq<Stripe>, i: nat, changed: bool, ch: bool)
    requires i < |gc|
    requires changed <==> exists k :: 0 <= k < i && LiveStripe(stripes, k).blockSectors != gc[k].blockSectors
    requires ch <==> LiveStripe(stripes, i).blockSectors != gc[i].blockSectors
    ensures (changed || ch) <==> exists k :: 0 <= k < i + 1 && LiveStripe(stripes, k).blockSectors != gc[k].blockSectors
  {
    if ch {
      assert LiveStripe(stripes, i).blockSectors != gc[i].blockSectors;
    }
  }

  lemma DoneFail(stripes: map<nat, Stripe>, gc: seq<Stripe>, live: map<nat, Stripe>, i: nat, changed: bool)
    requires forall k :: 0 <= k < |gc| ==> StripeShaped(gc[k])
    requires i < |gc| && DoneUpTo(stripes, gc, live, i, changed)
    requires !SameStripeShape(LiveStripe(stripes, i), gc[i])
    ensures FailedAt(stripes, gc, live[i := LiveStripe(stripes, i)], i, changed)
  {
  }

  /** Reconciling keeps every live stripe well formed. */
  lemma DoneKeepsShape(stripes: map<nat, Stripe>, gc: seq<Stripe>, live: map<nat, Stripe>, changed: bool)
    requires forall k :: 0 <= k < |gc| ==> StripeShaped(gc[k])
    requires forall k :: k in stripes ==> StripeShaped(stripes[k])
    requires DoneUpTo(stripes, gc, live, |gc|, changed)
    ensures forall k :: k in live ==> StripeShaped(live[k])
  {
    assert StripeShaped(ZeroStripe);
  }

  /** So does a stripe pass that stopped early. */
  lemma FailKeepsShape(stripes: map<nat, Stripe>, gc: seq<Stripe>, live: map<nat, Stripe>, j: nat, changed: bool)
    requires forall k :: 0 <= k < |gc| ==> StripeShaped(gc[k])
    requires forall k :: k in stripes ==> StripeShaped(stripes[k])
    requires FailedAt(stripes, gc, live, j, changed)
    ensures forall k :: k in live ==> StripeShaped(live[k])
  {
    assert StripeShaped(ZeroStripe);
  }

  /** The stripe loop of bch2_gc_done (lines 803-830), over every shadow stripe in
      index order.  On the first stripe whose shape differs it stops with -EINVAL:
      the stripes before it are reconciled (changed reporting whether their
      block counts differed), that one has been allocated in the live table, and
      the rest are untouched. */
  method DoneStripes(stripes: map<nat, Stripe>, gc: seq<Stripe>) returns (ret: int, live: map<nat, Stripe>, changed: bool)
    requires forall i :: 0 <= i < |gc| ==> StripeShaped(gc[i])
    requires forall i :: i in stripes ==> StripeShaped(stripes[i])
    ensures ret == 0 || ret == -EINVAL
    ensures ret == 0 <==> forall i :: 0 <= i < |gc| ==> SameStripeShape(LiveStripe(stripes, i), gc[i])
    ensures ret == 0 ==> DoneUpTo(stripes, gc, live, |gc|, changed)
    ensures ret != 0 ==> exists j :: FailedAt(stripes, gc, live, j, changed)
  {
    live := stripes;
    changed := false;
    var i := 0;
    while i < |gc|
      invariant DoneUpTo(stripes, gc, live, i, changed)
    {
      var dst := LiveStripe(live, i);
      assert dst == LiveStripe(stripes, i);
      var src := gc[i];
      if !SameStripeShape(dst, src) {
        DoneFail(stripes, gc, live, i, changed);
        live := live[i := dst];
        ret := -EINVAL;
        return;
      }
      var bs, ch := CopyBlockSectors(dst.blockSectors, src.blockSectors);
      var nonempty := CountNonempty(bs, dst.nrBlocks);
      DoneStep(stripes, gc, live, i, changed, ch);
      live := live[i := dst.(blockSectors := bs, blocksNonempty := nonempty)];
      changed := changed || ch;
      i := i + 1;
    }
    ret := 0;
  }

  /** copy_stripe_field over block_sectors (lines 820-822): each entry that
      differs is copied and reported. */
  method CopyBlockSectors(dst: seq<nat>, src: seq<nat>) returns (r: seq<nat>, changed: bool)
    requires |dst| == |src|
    ensures r == src
    ensures changed <==> dst != src
  {
    r := dst;
    changed := false;
    var i := 0;
    while i < |src|
      invariant 0 <= i <= |src| && |r| == |src|
      invariant forall k :: 0 <= k < i ==> r[k] == src[k]
      invariant forall k :: i <= k < |r| ==> r[k] == dst[k]
      invariant changed <==> exists k :: 0 <= k < i && dst[k] != src[k]
    {
      if r[i] != src[i] {
        r := r[i := src[i]];
        changed := true;
      }
      i := i + 1;
    }
    assert changed <==> dst != src by {
      if dst != src {
        var k :| 0 <= k < |src| && dst[k] != src[k];
      }
    }
  }

  /** The first bucket loop of bch2_gc_gens (lines 1183-1184): gc_gen starts again
      at the bucket's generation, in every bucket for_each_bucket visits, from
      the device's first_bucket to the end of the array. */
  method ResetGcGen(a: array<Bucket>, first: nat)
    modifies a
    ensures a[..] == ResetGcDev(old(a[..]), first)
  {
    var b := first;
    while b < a.Length
      invariant first <= b
      invariant forall i :: first <= i < b && i < a.Length ==> a[i] == old(a[i]).(gcGen := old(a[i]).mark.gen)
      invariant forall i :: 0 <= i < a.Length && (i < first || b <= i) ==> a[i] == old(a[i])
    {
      a[b] := a[b].(gcGen := a[b].mark.gen);
      b := b + 1;
    }
    assert a[..] == ResetGcDev(old(a[..]), first) by {
      assert forall i :: 0 <= i < a.Length ==> a[..][i] == ResetGcDev(old(a[..]), first)[i];
    }
  }

  /** The last bucket loop of bch2_gc_gens (lines 1201-1202): gc_gen becomes the
      bucket's oldest_gen, from first_bucket to the end of the array. */
  method PublishOldestGen(a: array<Bucket>, first: nat)
    modifies a
    ensures a[..] == PublishDev(old(a[..]), first)
  {
    var b := first;
    while b < a.Length
      invariant first <= b
      invariant forall i :: first <= i < b && i < a.Length ==> a[i] == old(a[i]).(oldestGen := old(a[i]).gcGen)
      invariant forall i :: 0 <= i < a.Length && (i < first || b <= i) ==> a[i] == old(a[i])
    {
      a[b] := a[b].(oldestGen := a[b].gcGen);
      b := b + 1;
    }
    assert a[..] == PublishDev(old(a[..]), first) by {
      assert forall i :: 0 <= i < a.Length ==> a[..][i] == PublishDev(old(a[..]), first)[i];
    }
  }
}
