/** commit_frame keeps the invariant. */
module RingCommit {
  import opened Prelude
  import opened Ring
  import opened RingArithmetic
  import opened RingInvariant

  // The commit goes through: the frame is the handed one and its fence carries a job.
  ghost predicate Commits(s: State, index: nat) {
    RingShape(s) && CommitFrame(s, index).1 == None
  }

  ghost function After(s: State, index: nat): State
    requires Commits(s, index)
  {
    CommitFrame(s, index).0
  }

  lemma CommitSlots(s: State, index: nat)
    requires RingOk(s) && Commits(s, index)
    ensures SlotsOk(After(s, index))
  {
    var s', N, P := After(s, index), |s.win.frames|, |s.env.commits|;
    assert SlotOk(s, index);
    NextSlot(P, N);
    forall i | 0 <= i < N
      ensures SlotOk(s', i)
    {
      assert SlotOk(s, i);
      NextCommit(P, i, N);
    }
  }

  lemma CommitRecord(s: State, index: nat)
    requires RingOk(s) && Commits(s, index)
    ensures CommitsOk(After(s, index).env, |s.win.frames|)
    ensures forall k | 0 <= k < |s.env.commits| && AcquireSignalled(s.env, k) ::
              AcquireSignalled(After(s, index).env, k)
  {
    var s', N, P := After(s, index), |s.win.frames|, |s.env.commits|;
    assert SlotOk(s, index);
    NextCommit(P, index, N);
    forall k | 0 <= k < P + 1
      ensures CommitOk(s'.env, k, N)
      ensures k < P && AcquireSignalled(s.env, k) ==> AcquireSignalled(s'.env, k)
    {
      if k < P {
        assert CommitOk(s.env, k, N);
        if SlotOf(k, N) == SlotOf(P, N) {
          SameSlot(k, P, N);
        }
      }
    }
  }

  lemma CommitReleases(s: State, index: nat)
    requires RingOk(s) && Commits(s, index)
    ensures ReleasesOk(After(s, index))
  {
    CommitRecord(s, index);
  }

  lemma CommitBuffers(s: State, index: nat)
    requires RingOk(s) && Commits(s, index)
    ensures CurrentBuffersOk(After(s, index))
  {
    hide CommitOk, RetiredOk, CounterAt;
    var s', N, P := After(s, index), |s.win.frames|, |s.env.commits|;
    forall i | 0 <= i < N
      ensures s'.win.frames[i].buffer == s.win.frames[i].buffer == Some(Base(s) + i)
    {
      assert SlotOk(s, i);
    }
  }

  lemma CommitRetired(s: State, index: nat)
    requires RingOk(s) && Commits(s, index)
    ensures AllRetiredOk(After(s, index))
  {
    hide CommitOk, CounterAt;
    var s' := After(s, index);
    assert SlotOk(s, index);
    forall a | 0 <= a < |s.win.retired|
      ensures RetiredOk(s', s'.win.retired[a])
    {
      assert RetiredOk(s, s.win.retired[a]);
    }
  }

  lemma FeedbackIsOlder(s: State)
    requires FeedbackHistoryOk(s)
    ensures forall f | f in s.env.liveFeedbacks :: f < s.env.feedbacks
  {
  }

  // What a commit does to the feedback objects.
  ghost predicate FeedbackMade(s: State, s': State, index: nat)
    requires index < |s.win.frames|
  {
    var n := s.env.feedbacks;
    && |s'.win.frames| == |s.win.frames| && s'.win.collectStats == s.win.collectStats
    && |s'.env.commits| == |s.env.commits| + 1
    && s'.env.feedbacks == (if s.win.collectStats then n + 1 else n)
    && s'.env.liveFeedbacks == (if s.win.collectStats then s.env.liveFeedbacks + {n} else s.env.liveFeedbacks)
    && forall i | 0 <= i < |s.win.frames| ::
         s'.win.frames[i].presentFeedback
         == if i == index && s.win.collectStats then Some(n) else s.win.frames[i].presentFeedback
  }

  lemma CommitMakesFeedback(s: State, index: nat)
    requires RingOk(s) && Commits(s, index)
    ensures index < |s.win.frames| && index == SlotOf(|s.env.commits|, |s.win.frames|)
    ensures FeedbackMade(s, After(s, index), index)
  {
    hide CommitsOk, ReleasesOk, CurrentBuffersOk, AllRetiredOk, GpuOk, SlotOf, CounterAt;
  }

  // Commit P makes feedback P; the object the slot had before belongs to commit P - N.
  lemma FeedbackHistoryGrows(s: State, s': State, index: nat)
    requires |s.win.frames| > 0 && FeedbackOk(s) && index == SlotOf(|s.env.commits|, |s.win.frames|)
    requires FeedbackMade(s, s', index)
    ensures FeedbackHistoryOk(s')
  {
    hide SlotOf;
    var N, P := |s.win.frames|, |s.env.commits|;
    LastCommitOf(P, N);
    forall f | f in s'.env.liveFeedbacks
      ensures f < s'.env.feedbacks
      ensures f + N < P + 1 || s'.win.frames[SlotOf(f, N)].presentFeedback == Some(f)
    {
      if f < P && SlotOf(f, N) == index {
        SameSlot(f, P, N);
      }
    }
  }

  lemma CommitKeepsAnswers(s: State, index: nat)
    requires Commits(s, index)
    ensures After(s, index).win.stats == s.win.stats
    ensures After(s, index).env.resizeDestroyed == s.env.resizeDestroyed
  {
  }

  lemma CommitFeedback(s: State, index: nat)
    requires RingOk(s) && FeedbackOk(s) && Commits(s, index)
    ensures FeedbackOk(After(s, index))
  {
    hide RingOk, FeedbackHistoryOk, CommitFrame;
    var s' := After(s, index);
    CommitMakesFeedback(s, index);
    FeedbackHistoryGrows(s, s', index);
    FeedbackIsOlder(s);
    CommitKeepsAnswers(s, index);
    if s.win.collectStats {
      assert s.env.feedbacks !in s.env.liveFeedbacks;
    }
  }

  lemma CommitOwnership(s: State, index: nat)
    requires RingOk(s) && OwnershipOk(s) && Commits(s, index)
    ensures OwnershipOk(After(s, index))
  {
    hide CommitsOk, ReleasesOk, CurrentBuffersOk, AllRetiredOk;
    var s' := After(s, index);
    assert forall r :: Owns(s', r) <==> Owns(s, r);
    assert SlotOk(s, index);
    forall n: nat | CompositorHolds(s'.env, n)
      ensures OwnsMemory(s', n)
    {
      assert CompositorHolds(s.env, n) || s.win.frames[index].buffer == Some(n);
    }
  }

  lemma CommitPacing(s: State, index: nat)
    requires PacingOk(s) && Commits(s, index)
    ensures PacingOk(After(s, index)) && Settled(After(s, index))
  {
  }

  lemma CommitKeepsInv(s: State, index: nat)
    requires Inv(s) && Commits(s, index)
    ensures Inv(After(s, index)) && Settled(After(s, index))
  {
    hide SlotsOk, CommitsOk, ReleasesOk, CurrentBuffersOk, AllRetiredOk, OwnershipOk, FeedbackOk, PacingOk;
    CommitSlots(s, index);
    CommitRecord(s, index);
    CommitReleases(s, index);
    CommitBuffers(s, index);
    CommitRetired(s, index);
    CommitFeedback(s, index);
    CommitOwnership(s, index);
    CommitPacing(s, index);
  }
}
