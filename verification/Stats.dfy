/** Streaming presentation statistics: the accumulator of detail.hpp and the update made by
    the `presented` event, and what that accumulator knows about the whole history. */
module Stats {

  datatype StatsAccum = StatsAccum(
    presented: nat, discarded: nat, late: nat,
    lastTvNs: int, minGapNs: int, maxGapNs: int)

  const FRESH := StatsAccum(0, 0, 0, 0, 0, 0)

  const NS_PER_SEC := 1_000_000_000
  const UINT32_RANGE := 0x1_0000_0000
  const INT64_LIMIT := 0x8000_0000_0000_0000

  // Protocol fields of wp_presentation_feedback.presented that the accumulator reads.
  datatype Timestamp = Timestamp(secHi: nat, secLo: nat, nsec: nat)

  predicate WireRange(t: Timestamp) {
    t.secHi < UINT32_RANGE && t.secLo < UINT32_RANGE && t.nsec < UINT32_RANGE
  }

  // The two 32-bit halves do not overlap, so the source's bitwise or is a sum.
  function TvNs(t: Timestamp): nat {
    (t.secHi * UINT32_RANGE + t.secLo) * NS_PER_SEC + t.nsec
  }

  /** Exactly which timestamps the signed 64-bit arithmetic of the listener can carry: the
      seconds may reach 9223372036, and in that very second only 854775807 ns fit. */
  lemma TvNsFitsIff(t: Timestamp)
    requires WireRange(t) && t.nsec < NS_PER_SEC
    ensures var sec := t.secHi * UINT32_RANGE + t.secLo;
            TvNs(t) < INT64_LIMIT <==> sec < 9223372036 || (sec == 9223372036 && t.nsec <= 854775807)
    ensures t.secHi <= 1 ==> TvNs(t) < INT64_LIMIT
  {
  }

  function Accumulate(s: StatsAccum, tvNs: int, refresh: nat): StatsAccum {
    var seen :=
      if s.lastTvNs == 0 then s
      else
        var gap := tvNs - s.lastTvNs;
        s.(minGapNs := if s.minGapNs == 0 || gap < s.minGapNs then gap else s.minGapNs,
           maxGapNs := if gap > s.maxGapNs then gap else s.maxGapNs,
           late := if refresh > 0 && gap > refresh * 3 / 2 then s.late + 1 else s.late);
    seen.(lastTvNs := tvNs, presented := s.presented + 1)
  }

  // ---- the history the accumulator has seen ----

  datatype Sample = Sample(tvNs: int, refresh: nat)

  function Streamed(h: seq<Sample>): StatsAccum {
    if h == [] then FRESH
    else var last := h[|h| - 1]; Accumulate(Streamed(h[..|h| - 1]), last.tvNs, last.refresh)
  }

  function Gap(h: seq<Sample>, i: nat): int
    requires i + 1 < |h|
  {
    h[i + 1].tvNs - h[i].tvNs
  }

  // A frame is late when its gap exceeds one and a half refresh periods, without rounding.
  predicate IsLate(h: seq<Sample>, i: nat)
    requires i + 1 < |h|
  {
    h[i + 1].refresh > 0 && 2 * Gap(h, i) > 3 * h[i + 1].refresh
  }

  // A last timestamp of zero stands for "none yet", so a gap after a zero timestamp goes unseen.
  predicate Seen(h: seq<Sample>, i: nat) {
    i + 1 < |h| && h[i].tvNs != 0
  }

  function SeenGaps(h: seq<Sample>): seq<int>
    decreases |h|
  {
    if |h| < 2 then []
    else SeenGaps(h[..|h| - 1]) + (if Seen(h, |h| - 2) then [Gap(h, |h| - 2)] else [])
  }

  function LateIndices(h: seq<Sample>): set<nat> {
    set i: nat | i + 1 < |h| && Seen(h, i) && IsLate(h, i)
  }

  ghost predicate Positive(h: seq<Sample>) {
    forall i | 0 <= i < |h| :: h[i].tvNs > 0
  }

  /** The seen gaps are the gaps after a nonzero timestamp; if there is no zero timestamp, they are
      all the gaps, in order. */
  lemma {:induction false} SeenGapsAre(h: seq<Sample>)
    ensures forall g :: g in SeenGaps(h) <==> exists i: nat :: Seen(h, i) && Gap(h, i) == g
    ensures Positive(h) && h != [] ==>
              |SeenGaps(h)| == |h| - 1 && forall i | 0 <= i < |h| - 1 :: SeenGaps(h)[i] == Gap(h, i)
    decreases |h|
  {
    if |h| >= 2 {
      var p := h[..|h| - 1];
      SeenGapsAre(p);
      assert forall i: nat :: i + 1 < |p| ==> Seen(p, i) == Seen(h, i) && Gap(p, i) == Gap(h, i);
      forall g
        ensures g in SeenGaps(h) <==> exists i: nat :: Seen(h, i) && Gap(h, i) == g
      {
        if i: nat :| Seen(h, i) && Gap(h, i) == g {
          assert i + 1 < |p| ==> Seen(p, i) && Gap(p, i) == g;
        }
        if g in SeenGaps(p) {
          var i: nat :| Seen(p, i) && Gap(p, i) == g;
          assert Seen(h, i) && Gap(h, i) == g;
        }
      }
    }
  }

  // ---- what the accumulator knows about it ----

  ghost predicate IsMin(gaps: seq<int>, m: int) {
    m in gaps && forall g | g in gaps :: m <= g
  }

  ghost predicate IsMax(gaps: seq<int>, m: int) {
    m in gaps && forall g | g in gaps :: g <= m
  }

  ghost predicate Backwards(gaps: seq<int>) {
    exists g :: g in gaps && g < 0
  }

  function Newest(gaps: seq<int>): int {
    if gaps == [] then 0 else gaps[|gaps| - 1]
  }

  // Some frame repeated its predecessor's timestamp, the newest one did not, and no gap was
  // negative.
  ghost predicate StaleZeroGap(gaps: seq<int>) {
    0 in gaps && Newest(gaps) != 0 && !Backwards(gaps)
  }

  // m is the least gap from index z on, and z follows a repeated timestamp or starts the history.
  ghost predicate MinSince(gaps: seq<int>, z: nat, m: int) {
    z < |gaps| && IsMin(gaps[z..], m) && (z > 0 ==> gaps[z - 1] == 0)
  }

  // The two figures as the accumulator folds them.
  function RunningMin(gaps: seq<int>): int {
    if gaps == [] then 0 else
      var m, g := RunningMin(gaps[..|gaps| - 1]), gaps[|gaps| - 1];
      if m == 0 || g < m then g else m
  }

  function RunningMax(gaps: seq<int>): int {
    if gaps == [] then 0 else
      var m, g := RunningMax(gaps[..|gaps| - 1]), gaps[|gaps| - 1];
      if g > m then g else m
  }

  lemma RunningExtends(gaps: seq<int>, g: int)
    ensures RunningMin([]) == RunningMax([]) == 0
    ensures var m := RunningMin(gaps);
            RunningMin(gaps + [g]) == if m == 0 || g < m then g else m
    ensures var m := RunningMax(gaps);
            RunningMax(gaps + [g]) == if g > m then g else m
  {
    assert (gaps + [g])[..|gaps + [g]| - 1] == gaps;
  }

  lemma {:induction false} StreamedFolds(h: seq<Sample>)
    ensures Streamed(h).minGapNs == RunningMin(SeenGaps(h))
    ensures Streamed(h).maxGapNs == RunningMax(SeenGaps(h))
    decreases |h|
  {
    hide RunningMin, RunningMax;
    RunningExtends([], 0);
    if h != [] {
      var p := h[..|h| - 1];
      StreamedFolds(p);
      StreamedLast(p);
      if |h| >= 2 {
        RunningExtends(SeenGaps(p), Gap(h, |h| - 2));
        assert SeenGaps(p) + [] == SeenGaps(p);
      }
    }
  }

  lemma StreamedLast(h: seq<Sample>)
    ensures Streamed(h).presented == |h| && Streamed(h).discarded == 0
    ensures Streamed(h).lastTvNs == if h == [] then 0 else h[|h| - 1].tvNs
  {
    if h != [] {
      StreamedLast(h[..|h| - 1]);
    }
  }

  lemma IsMinExtends(gaps: seq<int>, m: int, g: int)
    requires IsMin(gaps, m)
    ensures IsMin(gaps + [g], if g < m then g else m)
  {
  }

  lemma {:induction false} RunningMinimum(gaps: seq<int>)
    ensures Backwards(gaps) ==> RunningMin(gaps) < 0 && IsMin(gaps, RunningMin(gaps))
    ensures !Backwards(gaps) ==>
              && RunningMin(gaps) >= 0 && (RunningMin(gaps) == 0 <==> Newest(gaps) == 0)
              && (RunningMin(gaps) > 0 ==> exists z: nat :: MinSince(gaps, z, RunningMin(gaps)))
    decreases |gaps|
  {
    if gaps != [] {
      var p, g := gaps[..|gaps| - 1], Newest(gaps);
      var m, m' := RunningMin(p), RunningMin(gaps);
      RunningMinimum(p);
      assert gaps == p + [g] && g in gaps;
      if Backwards(p) {
        IsMinExtends(p, m, g);
      } else if g > 0 && m == 0 {
        assert gaps[|p|..] == [g];
        assert MinSince(gaps, |p|, m');
      } else if g > 0 {
        var z: nat :| MinSince(p, z, m);
        IsMinExtends(p[z..], m, g);
        assert gaps[z..] == p[z..] + [g];
        assert MinSince(gaps, z, m');
      }
    }
  }

  /** What the streaming minimum is, for timestamps in any order: exact once one gap was negative,
      otherwise the least gap after the last repeated timestamp, because zero doubles as "no gap
      yet". */
  lemma StreamedMinimum(h: seq<Sample>)
    ensures var gaps, m := SeenGaps(h), Streamed(h).minGapNs;
            && (Backwards(gaps) ==> m < 0 && IsMin(gaps, m))
            && (!Backwards(gaps) ==> m >= 0 && (m == 0 <==> Newest(gaps) == 0))
            && (m > 0 ==> exists z: nat :: MinSince(gaps, z, m))
  {
    StreamedFolds(h);
    RunningMinimum(SeenGaps(h));
  }

  /** The streaming minimum is the true minimum if and only if there was a gap, and no repeated
      timestamp followed by a later one unless some gap was negative. */
  lemma StreamedMinimumExactIff(h: seq<Sample>)
    ensures IsMin(SeenGaps(h), Streamed(h).minGapNs)
            <==> SeenGaps(h) != [] && !StaleZeroGap(SeenGaps(h))
  {
    StreamedMinimum(h);
    var gaps, m := SeenGaps(h), Streamed(h).minGapNs;
    if gaps != [] && !Backwards(gaps) && m > 0 {
      var z: nat :| MinSince(gaps, z, m);
      if z > 0 {
        assert gaps[z - 1] in gaps;
      } else {
        assert gaps[0..] == gaps;
      }
    }
  }

  lemma {:induction false} RunningMaximum(gaps: seq<int>)
    ensures RunningMax(gaps) >= 0
    ensures forall g | g in gaps :: g <= RunningMax(gaps)
    ensures RunningMax(gaps) in gaps || RunningMax(gaps) == 0
    decreases |gaps|
  {
    if gaps != [] {
      RunningMaximum(gaps[..|gaps| - 1]);
      assert gaps == gaps[..|gaps| - 1] + [Newest(gaps)];
    }
  }

  /** The streaming maximum is the true maximum if and only if some gap was not negative; otherwise
      it is zero. */
  lemma {:induction false} StreamedMaximum(h: seq<Sample>)
    ensures var gaps, m := SeenGaps(h), Streamed(h).maxGapNs;
            && (IsMax(gaps, m) <==> exists g :: g in gaps && g >= 0)
            && (!IsMax(gaps, m) ==> m == 0)
  {
    StreamedFolds(h);
    RunningMaximum(SeenGaps(h));
    var gaps, m := SeenGaps(h), Streamed(h).maxGapNs;
    if g :| g in gaps && g >= 0 {
      assert m >= g;
    }
  }

  /** The late count is exact on the seen gaps, for timestamps in any order. */
  lemma {:induction false} StreamedLate(h: seq<Sample>)
    ensures Streamed(h).late == |LateIndices(h)|
  {
    if |h| >= 1 {
      StreamedLate(h[..|h| - 1]);
      StreamedLast(h[..|h| - 1]);
      LateIndicesExtend(h);
    }
  }

  lemma LateIndicesExtend(h: seq<Sample>)
    requires |h| >= 1
    ensures |LateIndices(h)| == |LateIndices(h[..|h| - 1])|
                                + (if |h| >= 2 && Seen(h, |h| - 2) && IsLate(h, |h| - 2) then 1 else 0)
  {
    var p := h[..|h| - 1];
    assert forall i: nat :: i + 1 < |p| ==> Seen(p, i) == Seen(h, i) && IsLate(p, i) == IsLate(h, i);
    if |h| >= 2 && Seen(h, |h| - 2) && IsLate(h, |h| - 2) {
      assert LateIndices(h) == LateIndices(p) + {|h| - 2};
    } else {
      assert LateIndices(h) == LateIndices(p);
    }
  }

  ghost predicate IsMinGap(h: seq<Sample>, m: int) {
    && (exists i: nat :: i + 1 < |h| && Gap(h, i) == m)
    && (forall i: nat :: i + 1 < |h| ==> m <= Gap(h, i))
  }

  ghost predicate IsMaxGap(h: seq<Sample>, m: int) {
    && (exists i: nat :: i + 1 < |h| && Gap(h, i) == m)
    && (forall i: nat :: i + 1 < |h| ==> Gap(h, i) <= m)
  }

  // With no zero timestamp every gap is seen.
  lemma AllGapsSeen(h: seq<Sample>)
    requires Positive(h)
    ensures forall g :: g in SeenGaps(h) <==> exists i: nat :: i + 1 < |h| && Gap(h, i) == g
  {
    SeenGapsAre(h);
    forall g
      ensures g in SeenGaps(h) <==> exists i: nat :: i + 1 < |h| && Gap(h, i) == g
    {
      if i: nat :| i + 1 < |h| && Gap(h, i) == g {
        assert Seen(h, i);
      }
    }
  }

  lemma ExtremeGaps(h: seq<Sample>, m: int)
    requires Positive(h)
    ensures IsMin(SeenGaps(h), m) <==> IsMinGap(h, m)
    ensures IsMax(SeenGaps(h), m) <==> IsMaxGap(h, m)
  {
    hide SeenGaps, Gap;
    AllGapsSeen(h);
    assert forall i: nat :: i + 1 < |h| ==> Gap(h, i) in SeenGaps(h);
  }

  /** On strictly increasing timestamps every figure is the whole-history figure. */
  lemma StreamedIsWholeHistory(h: seq<Sample>)
    requires |h| >= 2 && Positive(h)
    requires forall i: nat :: i + 1 < |h| ==> Gap(h, i) > 0
    ensures var s := Streamed(h);
            && IsMinGap(h, s.minGapNs) && IsMaxGap(h, s.maxGapNs)
            && s.late == |LateIndices(h)| && s.presented == |h|
    ensures forall i: nat :: i in LateIndices(h) <==> i + 1 < |h| && IsLate(h, i)
  {
    SeenGapsAre(h);
    ExtremeGaps(h, Streamed(h).minGapNs);
    ExtremeGaps(h, Streamed(h).maxGapNs);
    StreamedMinimumExactIff(h);
    StreamedMaximum(h);
    StreamedLate(h);
    StreamedLast(h);
    assert Gap(h, 0) in SeenGaps(h);
  }

  // Histories that the accumulator misreports.
  function Stamps(a: int, b: int): seq<Sample> {
    [Sample(a, 0), Sample(b, 0)]
  }

  /** Three frames at 1, 1 and 5 ns: the smallest gap is 0 and the accumulator reports 4. */
  lemma RepeatedTimestampForgotten()
    ensures var h := [Sample(1, 0), Sample(1, 0), Sample(5, 0)];
            Gap(h, 0) == 0 && Streamed(h).minGapNs == 4 && !IsMinGap(h, 4)
  {
    var h := Stamps(1, 1) + [Sample(5, 0)];
    TwoStamps(1, 1);
    assert h[..2] == Stamps(1, 1);
    assert Gap(h, 0) == 0;
  }

  lemma TwoStamps(a: int, b: int)
    ensures Streamed(Stamps(a, b)) == Accumulate(StatsAccum(1, 0, 0, a, 0, 0), b, 0)
  {
    var one := [Sample(a, 0)];
    assert Stamps(a, b)[..1] == one && one[..0] == [];
    assert Streamed(one) == StatsAccum(1, 0, 0, a, 0, 0);
  }

  /** Two frames at 0 and 5 ns: the gap of 5 is reported as no gap at all. */
  lemma ZeroTimestampUnseen()
    ensures var h := Stamps(0, 5);
            IsMinGap(h, 5) && IsMaxGap(h, 5) && Streamed(h).minGapNs == Streamed(h).maxGapNs == 0
  {
    TwoStamps(0, 5);
    assert Gap(Stamps(0, 5), 0) == 5;
  }

  /** Two frames at 9 and 5 ns: the only gap is negative and the reported maximum is 0. */
  lemma BackwardsMaximum()
    ensures var h := Stamps(9, 5);
            IsMaxGap(h, -4) && Streamed(h).minGapNs == -4 && Streamed(h).maxGapNs == 0
  {
    TwoStamps(9, 5);
    assert Gap(Stamps(9, 5), 0) == -4;
  }
}
