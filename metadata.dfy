/** mark_metadata_sectors: a range of sectors holding superblock metadata is
    marked bucket by bucket, one call per bucket the range touches. */
module Metadata {
  import opened Base

  /** One call of bch2_mark_metadata_bucket: the bucket and how many of its
      sectors are marked. */
  datatype Chunk = Chunk(bucket: nat, sectors: nat)

  /** Total sectors of a run of calls. */
  function SumSectors(cs: seq<Chunk>): nat
    decreases |cs|
  {
    if cs == [] then 0 else SumSectors(cs[..|cs| - 1]) + cs[|cs| - 1].sectors
  }

  /** The sector where the i-th call starts. */
  function ChunkStart(start: nat, cs: seq<Chunk>, i: nat): nat
    requires i <= |cs|
  {
    start + SumSectors(cs[..i])
  }

  /** bucket_to_sector: the first sector of bucket b. */
  function BucketToSector(b: nat, bs: nat): nat {
    b * bs
  }

  /** sector_to_bucket: the bucket holding sector s. */
  function SectorToBucket(s: nat, bs: nat): nat
    requires bs > 0
  {
    s / bs
  }

  lemma BucketBounds(s: nat, bs: nat)
    requires bs > 0
    ensures BucketToSector(SectorToBucket(s, bs), bs) <= s < BucketToSector(SectorToBucket(s, bs) + 1, bs)
  {
  }

  lemma NextBucket(b: nat, bs: nat)
    ensures BucketToSector(b + 1, bs) == BucketToSector(b, bs) + bs
  {
  }

  /** The i-th call stays inside its bucket. */
  predicate InBucket(start: nat, cs: seq<Chunk>, i: nat, bs: nat)
    requires i < |cs|
  {
    BucketToSector(cs[i].bucket, bs) <= ChunkStart(start, cs, i)
    && ChunkStart(start, cs, i) + cs[i].sectors <= BucketToSector(cs[i].bucket + 1, bs)
  }

  /** mark_metadata_sectors (lines 602-618) for a device whose buckets hold bs
      sectors, on the range [start, end).  Like the source's do-while it always
      makes one call, a call of zero sectors when the range is empty. */
  method MarkMetadataSectors(start: nat, end: nat, bs: nat) returns (calls: seq<Chunk>)
    requires bs > 0 && start <= end
    ensures |calls| >= 1
    ensures forall i :: 0 <= i < |calls| ==> calls[i].bucket == SectorToBucket(start, bs) + i
    ensures forall i :: 0 <= i < |calls| ==> InBucket(start, calls, i, bs)
    ensures SumSectors(calls) == end - start
    ensures start < end ==> forall i :: 0 <= i < |calls| ==> calls[i].sectors > 0
    ensures start == end ==> calls == [Chunk(SectorToBucket(start, bs), 0)]
  {
    var b := SectorToBucket(start, bs);
    var cur := start;
    BucketBounds(start, bs);
    var lo := BucketToSector(b, bs);
    calls := [];
    while |calls| == 0 || cur < end
      invariant start <= cur <= end
      invariant b == SectorToBucket(start, bs) + |calls| && lo == BucketToSector(b, bs)
      invariant cur == start + SumSectors(calls)
      invariant (|calls| == 0 || cur < end) ==> lo <= cur < lo + bs
      invariant forall i :: 0 <= i < |calls| ==> calls[i].bucket == SectorToBucket(start, bs) + i
      invariant forall i :: 0 <= i < |calls| ==> InBucket(start, calls, i, bs)
      invariant start < end ==> forall i :: 0 <= i < |calls| ==> calls[i].sectors > 0
      invariant start == end ==> calls == [] || calls == [Chunk(SectorToBucket(start, bs), 0)]
      decreases end - cur, if |calls| == 0 then 1 else 0
    {
      var hi := lo + bs;
      NextBucket(b, bs);
      var sectors := Min(hi, end) - cur;
      var calls' := calls + [Chunk(b, sectors)];
      assert calls'[..|calls|] == calls;
      assert calls'[..|calls'|] == calls';
      forall i | 0 <= i < |calls| ensures InBucket(start, calls', i, bs) {
        assert InBucket(start, calls, i, bs);
        assert calls'[..i] == calls[..i] && calls'[i] == calls[i];
        assert ChunkStart(start, calls', i) == ChunkStart(start, calls, i);
      }
      assert InBucket(start, calls', |calls|, bs);
      calls := calls';
      b := b + 1;
      cur := cur + sectors;
      lo := hi;
    }
  }

  function Min(a: nat, b: nat): nat { if a < b then a else b }
}
