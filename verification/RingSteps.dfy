/** The library's own steps keep the invariant: reap, resize, arm, hand out, commit. */
module RingSteps {
  import opened Prelude
  import opened Ring
  import opened RingArithmetic
  import opened RingInvariant

  // ---- reap_retired ----

  // The release point an entry waits for covers every commit of its buffer.
  lemma RetiredUnused(s: State, fb: FrameSlot)
    requires RingOk(s) && RetiredOk(s, fb)
    requires fb.counter == 0 || ReleaseSignalled(s.env, fb.releaseSyncobj, fb.counter)
    ensures !CompositorHolds(s.env, fb.image.value) && !GpuWrites(s.env, fb.image.value)
  {
    var N, P := |s.win.frames|, |s.env.commits|;
    forall k | 0 <= k < P && s.env.commits[k].buffer == fb.buffer
      ensures k in s.env.released
    {
      assert CommitOk(s.env, k, N);
      var k0 :| k0 in s.env.released && k0 < P && s.env.commits[k0].release == fb.releaseSyncobj
                && s.env.commits[k0].releasePoint >= fb.counter;
      assert CommitOk(s.env, k0, N);
      if k <= k0 {
        SameSlot(k, k0, N);
      } else {
        SameSlot(k0, k, N);
      }
    }
  }

  lemma DestroyMemory(s: State, n: nat)
    requires !CompositorHolds(s.env, n) && !GpuWrites(s.env, n)
    requires {Buffer(n), Image(n), Fd(n)} <= s.env.live
    ensures DestroyEach(s.env, [Buffer(n), Image(n), Fd(n)])
            == s.env.(live := s.env.live - {Buffer(n), Image(n), Fd(n)})
  {
    var e1 := Destroy(s.env, Buffer(n));
    var e2 := Destroy(e1, Image(n));
    var e3 := Destroy(e2, Fd(n));
    assert !InUse(e1, Image(n)) && !InUse(e2, Fd(n));
    assert [Buffer(n), Image(n), Fd(n)][1..] == [Image(n), Fd(n)];
    assert [Image(n), Fd(n)][1..] == [Fd(n)] && [Fd(n)][1..] == [];
    assert DestroyEach(s.env, [Buffer(n), Image(n), Fd(n)]) == DestroyEach(e1, [Image(n), Fd(n)])
        == DestroyEach(e2, [Fd(n)]) == DestroyEach(e3, []) == e3;
    assert e3.live == s.env.live - {Buffer(n), Image(n), Fd(n)};
  }

  lemma DropKeepsInv(s: State, i: nat)
    requires Inv(s) && i < |s.win.retired|
    requires var fb := s.win.retired[i];
             fb.counter == 0 || ReleaseSignalled(s.env, fb.releaseSyncobj, fb.counter)
    ensures Inv(DropRetired(s, i))
    ensures DropRetired(s, i).env == s.env.(live := DropRetired(s, i).env.live)
  {
    var fb, s' := s.win.retired[i], DropRetired(s, i);
    assert RetiredOk(s, fb);
    var n := fb.image.value;
    RetiredUnused(s, fb);
    assert Owns(s, Buffer(n)) && Owns(s, Image(n)) && Owns(s, Fd(n));
    assert RetiredHandles(fb) == [Buffer(n), Image(n), Fd(n)];
    DestroyMemory(s, n);
    ErasedRing(s, i, s');
    ErasedOwnership(s, i, s');
  }

  lemma ErasedRing(s: State, i: nat, s': State)
    requires RingOk(s) && i < |s.win.retired|
    requires s'.win == s.win.(retired := Erase(s.win.retired, i))
    requires s'.env == s.env.(live := s'.env.live)
    ensures RingOk(s')
  {
    var mid := s.(env := s'.env);
    RingCarries(s, mid);
    forall k | 0 <= k < |s.win.frames|
      ensures SlotOk(s', k)
    {
      assert SlotOk(mid, k);
    }
    forall a | 0 <= a < |s'.win.retired|
      ensures RetiredOk(s', s'.win.retired[a])
    {
      assert RetiredOk(mid, s'.win.retired[a]);
    }
  }

  lemma ErasedOwnsMemory(s: State, i: nat, s': State, m: nat)
    requires SlotsOk(s) && AllRetiredOk(s) && i < |s.win.retired|
    requires s'.win == s.win.(retired := Erase(s.win.retired, i))
    requires s'.env.extents == s.env.extents
    ensures OwnsMemory(s', m) <==> OwnsMemory(s, m) && s.win.retired[i].image != Some(m)
  {
    hide SlotOk, CounterAt, SlotOf, ImagesAfter;
    assert forall a | 0 <= a < |s.win.retired| :: RetiredOk(s, s.win.retired[a]);
    if exists a | 0 <= a < |s.win.retired| :: a != i && s.win.retired[a].image == Some(m) {
      var a :| 0 <= a < |s.win.retired| && a != i && s.win.retired[a].image == Some(m);
      assert s'.win.retired[if a < i then a else a - 1].image == Some(m);
    } else {
      forall a | 0 <= a < |s'.win.retired|
        ensures s'.win.retired[a].image != Some(m)
      {
        assert s'.win.retired[a] == s.win.retired[if a < i then a else a + 1];
      }
    }
  }

  lemma ErasedOwnership(s: State, i: nat, s': State)
    requires SlotsOk(s) && AllRetiredOk(s) && OwnershipOk(s) && i < |s.win.retired|
    requires s'.win == s.win.(retired := Erase(s.win.retired, i))
    requires s.win.retired[i].image.Some?
    requires var n := s.win.retired[i].image.value;
             && s'.env == s.env.(live := s.env.live - {Buffer(n), Image(n), Fd(n)})
             && !CompositorHolds(s.env, n)
    ensures OwnershipOk(s')
  {
    hide SlotsOk, AllRetiredOk, OwnsMemory;
    var n := s.win.retired[i].image.value;
    forall m: nat
      ensures OwnsMemory(s', m) <==> OwnsMemory(s, m) && m != n
    {
      ErasedOwnsMemory(s, i, s', m);
    }
    assert forall r :: Owns(s', r) <==> Owns(s, r) && r !in {Buffer(n), Image(n), Fd(n)};
  }

  // Only the retired list, the live handles and the kernel side have changed.
  ghost predicate ReapOnly(s: State, s': State) {
    && s'.win == s.win.(retired := s'.win.retired)
    && SameHistory(s.env, s'.env)
    && s'.env.frameDones == s.env.frameDones && s'.env.callbackCommitted == s.env.callbackCommitted
    && s'.env.liveFeedbacks == s.env.liveFeedbacks && s'.env.lastConfigure == s.env.lastConfigure
  }

  lemma ReapOnlyTransitive(s: State, s1: State, s2: State)
    requires ReapOnly(s, s1) && ReapOnly(s1, s2)
    ensures ReapOnly(s, s2)
  {
  }

  lemma RetiredUnmarked(s: State, i: nat)
    requires Inv(s) && i < |s.win.retired|
    ensures !s.win.retired[i].released
  {
    assert RetiredOk(s, s.win.retired[i]);
  }

  lemma ReapEntryKeepsInv(s: State, i: nat, p: Probe)
    requires Inv(s) && i < |s.win.retired|
    ensures Inv(ReapEntry(s, i, p).0)
  {
    hide Inv, KernelAll, ReleaseSignalled, DestroyEach, RetiredHandles, Erase;
    var fb := s.win.retired[i];
    RetiredUnmarked(s, i);
    if fb.counter > 0 {
      KernelAllKeepsInv(s, p.kernel);
      var (s1, ready) := WaitReleasePoint(s, fb.releaseSyncobj, fb.counter, p);
      if ready {
        DropKeepsInv(s1, i);
      }
    } else {
      DropKeepsInv(s, i);
    }
  }

  lemma {:induction false} DestroyEachOnly(env: Env, rs: seq<Resource>)
    ensures var e := DestroyEach(env, rs);
            e == env.(live := e.live, doubleFrees := e.doubleFrees, hazards := e.hazards)
    decreases |rs|
  {
    hide InUse;
    if rs != [] {
      DestroyEachOnly(Destroy(env, rs[0]), rs[1..]);
    }
  }

  lemma ReapEntryOnly(s: State, i: nat, p: Probe)
    requires i < |s.win.retired|
    ensures ReapOnly(s, ReapEntry(s, i, p).0)
  {
    hide KernelAll, ReleaseSignalled, DestroyEach, RetiredHandles, Erase;
    var fb := s.win.retired[i];
    KernelAllOnly(s.env, p.kernel);
    DestroyEachOnly(s.env, RetiredHandles(fb));
    DestroyEachOnly(KernelAll(s.env, p.kernel), RetiredHandles(fb));
  }

  /** Reaping keeps the invariant and changes nothing but the retired list, the live handles, and
      how far the kernel side has moved. */
  lemma {:induction false} ReapKeepsInv(s: State, i: nat, probes: seq<Probe>)
    requires Inv(s)
    ensures Inv(ReapFrom(s, i, probes)) && ReapOnly(s, ReapFrom(s, i, probes))
    decreases |s.win.retired| - i
  {
    hide ReapEntry, Inv;
    if i < |s.win.retired| {
      var (s1, kept) := ReapEntry(s, i, ProbeOf(probes));
      var next := if kept then i + 1 else i;
      ReapEntryKeepsInv(s, i, ProbeOf(probes));
      ReapEntryOnly(s, i, ProbeOf(probes));
      ReapKeepsInv(s1, next, Rest(probes));
      ReapOnlyTransitive(s, s1, ReapFrom(s1, next, Rest(probes)));
      assert ReapFrom(s, i, probes) == ReapFrom(s1, next, Rest(probes));
    }
  }

  // ---- handle_resize ----

  // Dropping every slot's feedback object destroys each exactly once.
  lemma {:induction false} DropFeedbacksEffect(env: Env, frames: seq<FrameSlot>)
    requires DistinctFeedback(frames)
    requires forall i | 0 <= i < |frames| && frames[i].presentFeedback.Some? ::
               frames[i].presentFeedback.value in env.liveFeedbacks
    ensures var e := DropFeedbacks(env, frames);
            && e == env.(liveFeedbacks := e.liveFeedbacks, resizeDestroyed := e.resizeDestroyed)
            && e.liveFeedbacks <= env.liveFeedbacks
            && e.resizeDestroyed + |e.liveFeedbacks| == env.resizeDestroyed + |env.liveFeedbacks|
    ensures forall i | 0 <= i < |frames| && frames[i].presentFeedback.Some? ::
              frames[i].presentFeedback.value !in DropFeedbacks(env, frames).liveFeedbacks
    decreases |frames|
  {
    if frames != [] {
      assert DistinctFeedback(frames[1..]);
      assert forall i | 0 < i < |frames| :: frames[i] == frames[1..][i - 1];
      if frames[0].presentFeedback.Some? {
        var f := frames[0].presentFeedback.value;
        var e1 := DestroyFeedback(env, f).(resizeDestroyed := env.resizeDestroyed + 1);
        assert |e1.liveFeedbacks| == |env.liveFeedbacks| - 1;
        DropFeedbacksEffect(e1, frames[1..]);
      } else {
        DropFeedbacksEffect(env, frames[1..]);
      }
    }
  }

  lemma ResizeEnv(s: State)
    requires Inv(s)
    ensures var e := HandleResize(s).env;
            && e == s.env.(done := s.env.done + UpTo(|s.env.jobs|), liveFeedbacks := e.liveFeedbacks,
                           resizeDestroyed := e.resizeDestroyed,
                           live := s.env.live + Memory(|s.env.extents|, |s.win.frames|),
                           extents := e.extents,
                           announced := s.env.announced + [(s.win.pendingWidth, s.win.pendingHeight)])
            && e.liveFeedbacks <= s.env.liveFeedbacks
            && e.resizeDestroyed + |e.liveFeedbacks| == s.env.resizeDestroyed + |s.env.liveFeedbacks|
            && e.extents == s.env.extents + seq(|s.win.frames|, _ => (s.win.pendingWidth, s.win.pendingHeight))
  {
    DropFeedbacksEffect(WaitIdle(s.env), s.win.frames);
  }

  lemma ResizeSlots(s: State)
    requires Inv(s)
    ensures SlotsOk(HandleResize(s))
  {
    hide DropFeedbacks, Memory, UpTo;
    var s', N := HandleResize(s), |s.win.frames|;
    ResizeEnv(s);
    assert Base(s') == |s.env.extents|;
    forall i | 0 <= i < N
      ensures SlotOk(s', i)
    {
      assert SlotOk(s, i);
    }
  }

  lemma ResizeHistory(s: State)
    requires Inv(s)
    ensures var s' := HandleResize(s);
            && CommitsOk(s'.env, |s'.win.frames|) && ReleasesOk(s')
            && CurrentBuffersOk(s') && GpuOk(s') && FencesOk(s')
  {
    hide DropFeedbacks, Memory, AllRetired;
    var s', N := HandleResize(s), |s.win.frames|;
    ResizeEnv(s);
    forall k | 0 <= k < |s.env.commits|
      ensures CommitOk(s.env, k, N) && CommitOk(s'.env, k, N)
      ensures AcquireSignalled(s.env, k) ==> AcquireSignalled(s'.env, k)
    {
      assert CommitOk(s.env, k, N);
    }
    forall k, i | 0 <= k < |s.env.commits| && 0 <= i < N
      ensures s'.env.commits[k].buffer != s'.win.frames[i].buffer
    {
      assert CommitOk(s.env, k, N);
      assert s'.win.frames[i].buffer == Some(|s.env.extents| + i);
    }
  }

  lemma ResizeRetired(s: State)
    requires Inv(s)
    ensures AllRetiredOk(HandleResize(s))
  {
    hide DropFeedbacks, Memory, CommitOk, SlotOk, FeedbackOk, PacingOk, SizesOk, OwnershipOk;
    var s', N, kept := HandleResize(s), |s.win.frames|, |s.win.retired|;
    ResizeEnv(s);
    forall a | 0 <= a < |s'.win.retired|
      ensures RetiredOk(s', s'.win.retired[a])
      ensures a < kept ==> s'.win.retired[a] == s.win.retired[a] && s'.win.retired[a].image.value < Base(s)
      ensures a >= kept ==> s'.win.retired[a].image == Some(Base(s) + a - kept)
    {
      if a < kept {
        assert RetiredOk(s, s.win.retired[a]);
      } else {
        FrameRetires(s, a - kept);
      }
    }
  }

  lemma FrameRetires(s: State, i: nat)
    requires Inv(s) && i < |s.win.frames|
    ensures RetiredOk(HandleResize(s), RetiredCopy(s.win.frames[i]))
    ensures RetiredCopy(s.win.frames[i]).image == Some(Base(s) + i)
  {
    hide DropFeedbacks, Memory, UpTo, AllRetired, OwnershipOk, FeedbackOk, PacingOk, SizesOk;
    var fb, N := s.win.frames[i], |s.win.frames|;
    ResizeEnv(s);
    assert SlotOk(s, i);
    forall k | 0 <= k < |s.env.commits| && s.env.commits[k].buffer == fb.buffer
      ensures s.env.commits[k].release == fb.releaseSyncobj && s.env.commits[k].releasePoint <= fb.counter
    {
      assert CommitOk(s.env, k, N);
      assert SlotOf(k, N) == i;
      PointBelowCounter(k, |s.env.commits|, N);
    }
  }

  lemma ResizeOwnsMemory(s: State, n: nat)
    requires Inv(s)
    ensures OwnsMemory(HandleResize(s), n)
            <==> OwnsMemory(s, n) || |s.env.extents| <= n < |s.env.extents| + |s.win.frames|
  {
    hide DropFeedbacks, Memory, UpTo, CommitsOk, AllRetiredOk, ReleasesOk, CurrentBuffersOk, OwnershipOk;
    var s', base := HandleResize(s), |s.env.extents|;
    ResizeEnv(s);
    forall a | |s.win.retired| <= a < |s'.win.retired|
      ensures s'.win.retired[a].image == Some(Base(s) + a - |s.win.retired|)
    {
      assert SlotOk(s, a - |s.win.retired|);
    }
    if Base(s) <= n < base {
      assert s'.win.retired[|s.win.retired| + n - Base(s)].image == Some(n);
    } else if exists a | 0 <= a < |s.win.retired| :: s.win.retired[a].image == Some(n) {
      var a :| 0 <= a < |s.win.retired| && s.win.retired[a].image == Some(n);
      assert s'.win.retired[a].image == Some(n);
    }
  }

  lemma ResizeOwnership(s: State)
    requires Inv(s)
    ensures OwnershipOk(HandleResize(s))
  {
    hide DropFeedbacks, AllRetired, AllRenewed, OwnsMemory, RingOk;
    var s' := HandleResize(s);
    ResizeEnv(s);
    forall n: nat
      ensures OwnsMemory(s', n)
              <==> OwnsMemory(s, n) || |s.env.extents| <= n < |s.env.extents| + |s.win.frames|
    {
      ResizeOwnsMemory(s, n);
    }
    assert forall r :: Owns(s', r) <==> Owns(s, r) || r in Memory(|s.env.extents|, |s.win.frames|);
    HeldCarries(s, s');
  }

  // A resize destroys every slot's own object, so what stays live belongs to lapped commits.
  lemma ResizeFeedbackHistory(s: State)
    requires Inv(s)
    ensures FeedbackHistoryOk(HandleResize(s))
  {
    hide Memory, UpTo, AllRetired, RingOk, OwnershipOk, SizesOk, PacingOk, SlotOf;
    DropFeedbacksEffect(WaitIdle(s.env), s.win.frames);
  }

  lemma ResizeFeedback(s: State)
    requires Inv(s)
    ensures FeedbackOk(HandleResize(s)) && PacingOk(HandleResize(s))
  {
    hide DropFeedbacks, Memory, UpTo, AllRetired, RingOk, OwnershipOk, SizesOk, FeedbackHistoryOk;
    ResizeFeedbackHistory(s);
    ResizeEnv(s);
  }

  lemma ResizeSizes(s: State)
    requires Inv(s) && s.win.resizePending
    ensures SizesOk(HandleResize(s))
  {
    hide DropFeedbacks, Memory, UpTo, AllRetired, RingOk, OwnershipOk, FeedbackOk, PacingOk;
    ResizeEnv(s);
  }

  lemma ResizeKeepsInv(s: State)
    requires Inv(s) && s.win.resizePending
    ensures Inv(HandleResize(s))
  {
    hide HandleResize, OwnershipOk, FeedbackOk, PacingOk, SizesOk;
    ResizeSlots(s);
    ResizeHistory(s);
    ResizeRetired(s);
    ResizeOwnership(s);
    ResizeFeedback(s);
    ResizeSizes(s);
  }

  // ---- the rest of next_frame ----

  lemma RearmRing(s: State)
    requires RingOk(s) && OwnershipOk(s) && PacingOk(s)
    ensures RingOk(Rearm(s)) && OwnershipOk(Rearm(s))
  {
    hide RingOk;
    var s' := Rearm(s);
    RingCarries(s, s');
    if s.win.frameCallback.None? && !s.win.closed {
      assert forall r :: Owns(s', r) <==> Owns(s, r) || r == Callback(s.env.callbacks);
      HeldCarries(s, s');
    } else {
      SameOwnership(s, s');
    }
  }

  lemma RearmKeepsInv(s: State)
    requires Inv(s)
    requires |s.env.commits| > 0 ==> s.win.frameDue
    ensures Inv(Rearm(s)) && Armed(Rearm(s)) && Paid(Rearm(s))
  {
    hide RingOk, OwnershipOk;
    RearmRing(s);
  }

  lemma GrantedKeepsInv(s: State)
    requires Inv(s)
    requires |s.env.commits| > 0 ==> s.win.frameDue
    ensures Inv(Granted(s)) && Armed(Granted(s)) && Paid(Granted(s))
  {
    hide Rearm, RingOk, OwnershipOk, FeedbackOk, PacingOk, SizesOk;
    if s.win.resizePending {
      ResizeEnv(s);
      ResizeKeepsInv(s);
      RearmKeepsInv(HandleResize(s));
    } else {
      RearmKeepsInv(s);
    }
  }

  // The slot about to be handed out has no earlier commit outstanding.
  lemma AwaitedIsReleased(s: State)
    requires RingOk(s)
    requires var fb := s.win.frames[s.win.nextFrame];
             fb.counter == 0 || ReleaseSignalled(s.env, fb.releaseSyncobj, fb.counter)
    ensures forall k | 0 <= k && k + |s.win.frames| <= |s.env.commits| :: k in s.env.released
  {
    var N, P, i := |s.win.frames|, |s.env.commits|, s.win.nextFrame;
    assert SlotOk(s, i);
    LastCommitOf(P, N);
    if P >= N {
      var k :| k in s.env.released && k < P && s.env.commits[k].release == Some(2 * i + 1)
               && s.env.commits[k].releasePoint >= PointOf(P - N, N);
      assert CommitOk(s.env, k, N);
      if k <= P - N {
        SameSlot(k, P - N, N);
      } else {
        SameSlot(P - N, k, N);
      }
    }
  }

  lemma HandOutKeepsInv(s: State)
    requires Inv(s) && Armed(s) && Paid(s)
    requires var fb := s.win.frames[s.win.nextFrame];
             fb.counter == 0 || ReleaseSignalled(s.env, fb.releaseSyncobj, fb.counter)
    ensures Inv(HandOut(s).0) && Settled(HandOut(s).0)
  {
    var s' := HandOut(s).0;
    AwaitedIsReleased(s);
    forall i | 0 <= i < |s.win.frames|
      ensures SlotOk(s', i)
    {
      assert SlotOk(s, i);
    }
    RetiredCarry(s, s'.(win := s.win));
    forall a | 0 <= a < |s.win.retired|
      ensures RetiredOk(s', s'.win.retired[a])
    {
      assert RetiredOk(s, s.win.retired[a]);
    }
    assert forall r :: Owns(s', r) <==> Owns(s, r);
    HeldCarries(s, s');
  }
}
