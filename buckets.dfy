/** The allocation metadata the collector reads and rebuilds: buckets, stripes,
    extent pointers and keys, and the per-device bucket store viewed as a value. */
module Buckets {
  import opened Base

  /** struct bucket_mark: the fields the collector compares and copies. */
  datatype Mark = Mark(
    gen: Gen,
    dataType: nat,
    ownedByAllocator: bool,
    stripe: bool,
    dirtySectors: nat,
    cachedSectors: nat)

  /** struct bucket: the mark plus the collector's own bookkeeping. */
  datatype Bucket = Bucket(mark: Mark, oldestGen: Gen, genValid: bool, gcGen: Gen)

  const ZeroMark: Mark := Mark(0, 0, false, false, 0, 0)
  const ZeroBucket: Bucket := Bucket(ZeroMark, 0, false, 0)

  /** Number of per-block sector counters in a stripe (BCH_BKEY_PTRS_MAX). */
  const StripeBlocksMax: nat := 16

  /** struct stripe: an erasure-coded group as the collector sees it. */
  datatype Stripe = Stripe(
    alive: bool,
    sectors: nat,
    algorithm: nat,
    nrBlocks: nat,
    nrRedundant: nat,
    blocksNonempty: nat,
    blockSectors: seq<nat>)

  const ZeroStripe: Stripe := Stripe(false, 0, 0, 0, 0, 0, [0, 0, 0, 0, 0, 0, 0, 0, 0, 0, 0, 0, 0, 0, 0, 0])

  /** A stripe record has its fixed-size block table and at most that many blocks. */
  predicate StripeShaped(s: Stripe) {
    |s.blockSectors| == StripeBlocksMax && s.nrBlocks <= StripeBlocksMax
  }

  /** A decoded extent pointer: device, bucket number, generation, cached or dirty,
      and the stripe entry that follows it, when there is one. */
  datatype Ptr = Ptr(dev: nat, bucket: nat, gen: Gen, cached: bool, ec: Option<nat>)

  /** A key: its position, its version (version.lo) and its pointers. */
  datatype Key = Key(pos: Pos, version: nat, ptrs: seq<Ptr>)

  /** Every member device's bucket array, as a value: Store[dev][bucket]. */
  type Store = seq<seq<Bucket>>

  predicate InStore(s: Store, p: Ptr) {
    p.dev < |s| && p.bucket < |s[p.dev]|
  }

  predicate AllInStore(s: Store, ptrs: seq<Ptr>) {
    forall i :: 0 <= i < |ptrs| ==> InStore(s, ptrs[i])
  }

  /** Two stores have the same devices and bucket counts. */
  predicate SameShape(s: Store, t: Store) {
    |s| == |t| && forall d :: 0 <= d < |s| ==> |s[d]| == |t[d]|
  }

  /** PTR_BUCKET: the bucket a pointer refers to. */
  function Get(s: Store, p: Ptr): Bucket
    requires InStore(s, p)
  {
    s[p.dev][p.bucket]
  }

  /** The store with the bucket a pointer refers to replaced. */
  function Put(s: Store, p: Ptr, b: Bucket): (r: Store)
    requires InStore(s, p)
    ensures SameShape(s, r) && InStore(r, p) && Get(r, p) == b
    ensures forall d, i :: 0 <= d < |s| && 0 <= i < |s[d]| && (d, i) != (p.dev, p.bucket) ==> r[d][i] == s[d][i]
  {
    s[p.dev := s[p.dev][p.bucket := b]]
  }

  /** Two pointers refer to the same bucket. */
  predicate SameBucket(p: Ptr, q: Ptr) {
    p.dev == q.dev && p.bucket == q.bucket
  }

  /** No two pointers of a key refer to the same bucket (a key never holds two
      pointers into one device). */
  predicate DistinctBuckets(ptrs: seq<Ptr>) {
    forall i, j :: 0 <= i < j < |ptrs| ==> !SameBucket(ptrs[i], ptrs[j])
  }

  /** No pointer in the sequence refers to the bucket of p. */
  predicate Untouched(ptrs: seq<Ptr>, p: Ptr) {
    forall i :: 0 <= i < |ptrs| ==> !SameBucket(ptrs[i], p)
  }

  lemma SameShapeInStore(s: Store, t: Store, ptrs: seq<Ptr>)
    requires SameShape(s, t) && AllInStore(s, ptrs)
    ensures AllInStore(t, ptrs)
  {
  }
}
