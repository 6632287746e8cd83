/** The order in which the collector walks everything it marks: the GC position
    (phase, btree position, level) compared lexicographically, and the order of
    the btrees, sorted by their GC phase (bch2_gc_btrees). */
module GcOrder {
  import opened Base

  /** struct gc_pos. */
  datatype GcPos = GcPos(phase: nat, pos: Pos, level: nat)

  /** enum gc_phase, as far as this file names it. */
  const PhaseNotRunning: nat := 0
  const PhaseStart: nat := 1
  const PhaseSb: nat := 2

  /** gc_phase(p): the position at the start of phase p. */
  function Phase(p: nat): (r: GcPos)
    ensures r.phase == p && r.pos == PosMin && r.level == 0
  {
    GcPos(p, PosMin, 0)
  }

  /** gc_pos_cmp(a, b) < 0. */
  predicate PosLt(a: GcPos, b: GcPos) {
    a.phase < b.phase
    || (a.phase == b.phase && a.pos < b.pos)
    || (a.phase == b.phase && a.pos == b.pos && a.level < b.level)
  }

  /** The order is a strict total order. */
  lemma PosLtStrictTotal(a: GcPos, b: GcPos, c: GcPos)
    ensures !PosLt(a, a)
    ensures PosLt(a, b) ==> !PosLt(b, a)
    ensures PosLt(a, b) && PosLt(b, c) ==> PosLt(a, c)
    ensures a == b || PosLt(a, b) || PosLt(b, a)
  {
  }

  /** btree_id_gc_phase_cmp (lines 573-577): the sign of the phase difference. */
  function PhaseCmp(phase: seq<nat>, l: nat, r: nat): (c: int)
    requires l < |phase| && r < |phase|
    ensures c > 0 <==> phase[l] > phase[r]
    ensures c == 0 <==> phase[l] == phase[r]
  {
    phase[l] as int - phase[r] as int
  }

  /** The btree ids 0 .. n-1 in order. */
  function Range(n: nat): (r: seq<nat>)
    ensures |r| == n && forall i :: 0 <= i < n ==> r[i] == i
  {
    seq(n, i => i)
  }

  /** Ordered by phase, ties kept in ascending id order. */
  predicate PhaseOrdered(phase: seq<nat>, ids: seq<nat>)
    requires IdsIn(phase, ids)
  {
    forall i, j :: 0 <= i < j < |ids| ==>
      phase[ids[i]] < phase[ids[j]] || (phase[ids[i]] == phase[ids[j]] && ids[i] < ids[j])
  }

  predicate IdsIn(phase: seq<nat>, ids: seq<nat>) {
    forall i :: 0 <= i < |ids| ==> ids[i] < |phase|
  }

  /** ids[lo..hi] is ordered by phase. */
  predicate SortedRange(phase: seq<nat>, ids: seq<nat>, lo: int, hi: int)
    requires IdsIn(phase, ids) && 0 <= lo && hi <= |ids|
  {
    forall i, j :: lo <= i < j < hi ==> phase[ids[i]] <= phase[ids[j]]
  }

  /** No id before position end + 1 has a phase above the one at end + 1. */
  predicate BelowSuffix(phase: seq<nat>, ids: seq<nat>, end: int)
    requires IdsIn(phase, ids) && -1 <= end < |ids|
  {
    end + 1 < |ids| ==> forall k :: 0 <= k <= end ==> phase[ids[k]] <= phase[ids[end + 1]]
  }

  /** The id array of bch2_gc_btrees (lines 579-586): 0 .. n-1, then
      bubble_sort with btree_id_gc_phase_cmp, which stops after a pass without
      swaps.  The result is a permutation of the ids, ordered by phase, and
      stable: ids of equal phase stay in ascending order. */
  method SortByPhase(phase: seq<nat>) returns (ids: array<nat>)
    ensures fresh(ids)
    ensures multiset(ids[..]) == multiset(Range(|phase|))
    ensures IdsIn(phase, ids[..])
    ensures PhaseOrdered(phase, ids[..])
  {
    var n := |phase|;
    ids := new nat[n](i => i);
    assert ids[..] == Range(n);
    var end: int := n - 1;
    var swapped := true;
    while end > 0 && swapped
      invariant -1 <= end < n
      invariant multiset(ids[..]) == multiset(Range(n))
      invariant IdsIn(phase, ids[..]) && EqualPhasesAscending(phase, ids[..])
      invariant SortedRange(phase, ids[..], end + 1, n)
      invariant BelowSuffix(phase, ids[..], end)
      invariant !swapped ==> SortedRange(phase, ids[..], 0, end + 1)
      decreases end + 1
    {
      swapped := BubblePass(phase, ids, end);
      end := end - 1;
    }
    SortedWhole(phase, ids[..], end);
  }

  /** One pass of the bubble sort over ids[0..end]: it carries the largest phase of
      that prefix to position end, leaves the suffix alone, and reports whether it
      swapped anything; a pass without swaps found the prefix ordered. */
  method BubblePass(phase: seq<nat>, ids: array<nat>, end: int) returns (swapped: bool)
    requires 0 < end < ids.Length
    requires IdsIn(phase, ids[..]) && EqualPhasesAscending(phase, ids[..])
    requires SortedRange(phase, ids[..], end + 1, ids.Length) && BelowSuffix(phase, ids[..], end)
    modifies ids
    ensures multiset(ids[..]) == multiset(old(ids[..]))
    ensures IdsIn(phase, ids[..]) && EqualPhasesAscending(phase, ids[..])
    ensures SortedRange(phase, ids[..], end, ids.Length) && BelowSuffix(phase, ids[..], end - 1)
    ensures !swapped ==> SortedRange(phase, ids[..], 0, end + 1)
  {
    swapped := false;
    var i := 0;
    while i < end
      invariant 0 <= i <= end
      invariant multiset(ids[..]) == multiset(old(ids[..]))
      invariant ids[end + 1..] == old(ids[end + 1..])
      invariant PassInv(phase, ids[..], i, end, swapped)
    {
      ghost var before := ids[..];
      ghost var swappedBefore := swapped;
      if PhaseCmp(phase, ids[i], ids[i + 1]) > 0 {
        ids[i], ids[i + 1] := ids[i + 1], ids[i];
        swapped := true;
      }
      PassStep(phase, before, ids[..], i, end, swappedBefore, swapped);
      i := i + 1;
    }
    PassDone(phase, old(ids[..]), ids[..], end, swapped);
  }

  /** What holds after step i of a pass. */
  predicate PassInv(phase: seq<nat>, s: seq<nat>, i: int, end: int, swapped: bool) {
    && 0 <= i <= end < |s|
    && IdsIn(phase, s) && EqualPhasesAscending(phase, s)
    && BelowSuffix(phase, s, end)
    && (forall k :: 0 <= k <= i ==> phase[s[k]] <= phase[s[i]])
    && (!swapped ==> SortedRange(phase, s, 0, i + 1))
  }

  lemma PassStep(phase: seq<nat>, before: seq<nat>, after: seq<nat>, i: int, end: int,
                 swappedBefore: bool, swappedAfter: bool)
    requires i < end && PassInv(phase, before, i, end, swappedBefore)
    requires phase[before[i]] > phase[before[i + 1]] ==>
               after == before[i := before[i + 1]][i + 1 := before[i]] && swappedAfter
    requires phase[before[i]] <= phase[before[i + 1]] ==> after == before && swappedAfter == swappedBefore
    ensures PassInv(phase, after, i + 1, end, swappedAfter)
    ensures multiset(after) == multiset(before)
    ensures after[end + 1..] == before[end + 1..]
  {
    if phase[before[i]] > phase[before[i + 1]] {
      SwapKeepsOrder(phase, before, i);
      assert after[end + 1..] == before[end + 1..];
      forall k | 0 <= k <= i + 1 ensures phase[after[k]] <= phase[after[i + 1]] {
        if k < i { assert after[k] == before[k]; }
      }
      if end + 1 < |after| {
        forall k | 0 <= k <= end ensures phase[after[k]] <= phase[after[end + 1]] {
          assert after[end + 1] == before[end + 1];
          if k != i && k != i + 1 { assert after[k] == before[k]; }
        }
      }
    }
  }

  lemma PassDone(phase: seq<nat>, orig: seq<nat>, s: seq<nat>, end: int, swapped: bool)
    requires PassInv(phase, s, end, end, swapped) && |orig| == |s|
    requires IdsIn(phase, orig) && SortedRange(phase, orig, end + 1, |orig|)
    requires s[end + 1..] == orig[end + 1..]
    ensures SortedRange(phase, s, end, |s|) && BelowSuffix(phase, s, end - 1)
  {
    forall i, j | end <= i < j < |s| ensures phase[s[i]] <= phase[s[j]] {
      assert s[j] == s[end + 1..][j - end - 1] == orig[j];
      if i > end {
        assert s[i] == s[end + 1..][i - end - 1] == orig[i];
      } else if j > end + 1 {
        assert s[end + 1] == s[end + 1..][0] == orig[end + 1];
      }
    }
  }

  /** At the end of the sort the whole array is ordered by phase, and, equal
      phases being in ascending id order, ordered as PhaseOrdered says. */
  lemma SortedWhole(phase: seq<nat>, ids: seq<nat>, end: int)
    requires -1 <= end < |ids| && IdsIn(phase, ids) && EqualPhasesAscending(phase, ids)
    requires SortedRange(phase, ids, end + 1, |ids|) && BelowSuffix(phase, ids, end)
    requires end <= 0 || SortedRange(phase, ids, 0, end + 1)
    ensures PhaseOrdered(phase, ids)
  {
    forall i, j | 0 <= i < j < |ids| ensures phase[ids[i]] <= phase[ids[j]] {
      if j <= end {
      } else if i <= end {
        assert phase[ids[i]] <= phase[ids[end + 1]];
      }
    }
  }

  /** Two ids of equal phase appear in ascending order. */
  predicate EqualPhasesAscending(phase: seq<nat>, ids: seq<nat>)
    requires IdsIn(phase, ids)
  {
    forall i, j :: 0 <= i < j < |ids| && phase[ids[i]] == phase[ids[j]] ==> ids[i] < ids[j]
  }

  /** Swapping two neighbours of different phase keeps equal-phase ids in order and
      the multiset of ids unchanged. */
  lemma SwapKeepsOrder(phase: seq<nat>, ids: seq<nat>, i: nat)
    requires i + 1 < |ids| && IdsIn(phase, ids)
    requires phase[ids[i]] > phase[ids[i + 1]]
    requires EqualPhasesAscending(phase, ids)
    ensures var s := ids[i := ids[i + 1]][i + 1 := ids[i]];
      && multiset(s) == multiset(ids)
      && IdsIn(phase, s)
      && EqualPhasesAscending(phase, s)
  {
    var s := ids[i := ids[i + 1]][i + 1 := ids[i]];
    forall a, b | 0 <= a < b < |s| && phase[s[a]] == phase[s[b]] ensures s[a] < s[b] {
      var a' := if a == i then i + 1 else if a == i + 1 then i else a;
      var b' := if b == i then i + 1 else if b == i + 1 then i else b;
      assert s[a] == ids[a'] && s[b] == ids[b'];
      assert a' < b';
    }
  }
}
