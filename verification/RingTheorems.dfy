/** What the frame ring promises in every run: for every ring size, every script of events and
    every schedule of the GPU and the compositor. */
module RingTheorems {
  import opened Prelude
  import opened Ring
  import opened RingArithmetic
  import opened RingInvariant
  import opened RingRuns

  // ---- the image that is handed out ----

  // Nothing committed for slot i is still with the compositor, in this generation or an older one.
  ghost predicate SlotReturned(s: State, i: nat)
    requires |s.win.frames| > 0
  {
    forall k | 0 <= k < |s.env.commits| && SlotOf(k, |s.win.frames|) == i :: k in s.env.released
  }

  lemma HandedSlotReturned(s: State, i: nat)
    requires Inv(s) && s.win.handedIndex == Some(i)
    ensures SlotReturned(s, i)
  {
    var N, P := |s.win.frames|, |s.env.commits|;
    forall k | 0 <= k < P && SlotOf(k, N) == i
      ensures k in s.env.released
    {
      SameSlot(k, P, N);
    }
  }

  // f names a live image of the window's size that the compositor cannot be reading, on a slot
  // whose every release point has been signalled.
  ghost predicate SafeToDraw(s: State, f: Frame) {
    && f.index < |s.win.frames| && SlotReturned(s, f.index)
    && f.image.Some? && f.image.value < |s.env.extents|
    && f.dmaBufFd == f.image && f.renderFence == s.win.frames[f.index].renderFence
    && Image(f.image.value) in s.env.live
    && !CompositorHolds(s.env, f.image.value)
    && s.env.extents[f.image.value] == (s.win.width, s.win.height)
  }

  /** Whatever wait_frame hands out, in any run, is safe to draw into. */
  lemma HandedImageIsFree(c: Config, batches: seq<seq<Happening>>, actions: seq<Action>, sc: Script)
    requires Constructed(c, batches) && Reach(c, batches, actions).blocked.None?
    ensures var (s', o) := NextFrame(Reach(c, batches, actions).s, sc);
            o.Handed? ==> SafeToDraw(s', o.frame)
  {
    hide Inv, NextFrame, HandOut, Reach, SafeToDraw;
    var y := Reach(c, batches, actions);
    var (s', o) := NextFrame(y.s, sc);
    NextFrameKeepsInv(y.s, sc);
    if o.Handed? {
      HandedFree(s', o.frame);
    }
  }

  lemma HandedFree(s: State, f: Frame)
    requires Inv(s) && RingShape(s) && s == HandOut(s).0 && HandOut(s).1 == Handed(f)
    ensures SafeToDraw(s, f)
  {
    assert SlotOk(s, f.index);
    HandedSlotReturned(s, f.index);
    assert Owns(s, Image(f.image.value));
  }

  // ---- destruction ----

  /** In no run is any handle destroyed twice, or any memory destroyed while a commit that
      attached it is unreleased or an unfinished GPU job writes it. */
  lemma NothingFreedInUse(c: Config, batches: seq<seq<Happening>>, actions: seq<Action>)
    requires Constructed(c, batches)
    ensures Reach(c, batches, actions).s.env.hazards == 0
    ensures Reach(c, batches, actions).s.env.doubleFrees == 0
  {
    assert Good(Reach(c, batches, actions));
  }

  /** In every reachable state whatever the compositor may still read or the GPU may still write is
      live: every commit keeps its buffer, image and descriptor until it is released, over any
      number of stacked resizes. */
  lemma NobodyLosesMemory(c: Config, batches: seq<seq<Happening>>, actions: seq<Action>, r: Resource)
    requires Constructed(c, batches) && InUse(Reach(c, batches, actions).s.env, r)
    ensures r in Reach(c, batches, actions).s.env.live
  {
    hide Reach;
    UsersKeepMemory(Reach(c, batches, actions).s, r);
  }

  lemma UsersKeepMemory(s: State, r: Resource)
    requires Inv(s) && InUse(s.env, r)
    ensures r in s.env.live
  {
    assert OwnsMemory(s, r.n) && Owns(s, r);
  }

  /** The buffer of an unreleased commit k is still in slot k mod N, or in a retired entry that
      waits on that slot's release timeline for point k div N + 1 or a later one. */
  lemma UnreleasedBufferIsKept(c: Config, batches: seq<seq<Happening>>, actions: seq<Action>, k: nat)
    requires Constructed(c, batches)
    requires var env := Reach(c, batches, actions).s.env; k < |env.commits| && k !in env.released
    ensures var s := Reach(c, batches, actions).s;
            var N, buffer := |s.win.frames|, s.env.commits[k].buffer;
            && N > 0 && buffer.Some? && Buffer(buffer.value) in s.env.live
            && (|| s.win.frames[k % N].buffer == buffer
                || exists a | 0 <= a < |s.win.retired| ::
                     && s.win.retired[a].buffer == buffer
                     && s.win.retired[a].releaseSyncobj == s.win.frames[k % N].releaseSyncobj
                     && s.win.retired[a].counter >= k / N + 1)
  {
    hide Reach;
    BufferKept(Reach(c, batches, actions).s, k);
  }

  lemma BufferKept(s: State, k: nat)
    requires Inv(s) && k < |s.env.commits| && k !in s.env.released
    ensures var N, buffer := |s.win.frames|, s.env.commits[k].buffer;
            && N > 0 && buffer.Some? && Buffer(buffer.value) in s.env.live
            && (|| s.win.frames[k % N].buffer == buffer
                || exists a | 0 <= a < |s.win.retired| ::
                     && s.win.retired[a].buffer == buffer
                     && s.win.retired[a].releaseSyncobj == s.win.frames[k % N].releaseSyncobj
                     && s.win.retired[a].counter >= k / N + 1)
  {
    var N := |s.win.frames|;
    SlotAndPointClosed(k, N);
    assert CommitOk(s.env, k, N) && SlotOk(s, SlotOf(k, N));
    var n := s.env.commits[k].buffer.value;
    assert CompositorHolds(s.env, n);
    UsersKeepMemory(s, Buffer(n));
    assert OwnsMemory(s, n);
    if Base(s) <= n < |s.env.extents| {
      assert SlotOk(s, n - Base(s));
    } else {
      var a :| 0 <= a < |s.win.retired| && s.win.retired[a].image == Some(n);
      assert RetiredOk(s, s.win.retired[a]);
    }
  }

  ghost predicate InFrames(s: State, n: nat) {
    exists i | 0 <= i < |s.win.frames| :: s.win.frames[i].image == Some(n)
  }

  ghost predicate InRetired(s: State, n: nat) {
    exists a | 0 <= a < |s.win.retired| :: s.win.retired[a].image == Some(n)
  }

  ghost predicate Distinct(slots: seq<FrameSlot>) {
    forall a, b | 0 <= a < b < |slots| :: slots[a].image != slots[b].image
  }

  /** Each image ever created, with its buffer and descriptor, is in exactly one of the current
      slots, the retired list, or freed; N are created at first and N per resize; and only images
      whose replacement on_resize has announced are freed. */
  lemma OwnershipPartition(c: Config, batches: seq<seq<Happening>>, actions: seq<Action>, n: nat)
    requires Constructed(c, batches)
    ensures var s := Reach(c, batches, actions).s;
            var N := |s.win.frames|;
            && |s.env.extents| == N * (|s.env.announced| + 1)
            && Distinct(s.win.frames) && Distinct(s.win.retired)
            && (Image(n) in s.env.live <==> Buffer(n) in s.env.live)
            && (Image(n) in s.env.live <==> Fd(n) in s.env.live)
            && (n >= |s.env.extents| ==> !InFrames(s, n) && !InRetired(s, n) && Image(n) !in s.env.live)
            && (n < |s.env.extents| ==>
                  && !(InFrames(s, n) && InRetired(s, n))
                  && (InFrames(s, n) || InRetired(s, n) <==> Image(n) in s.env.live)
                  && (InFrames(s, n) <==> n >= N * |s.env.announced|)
                  && (Image(n) !in s.env.live ==> n < N * |s.env.announced|))
  {
    PartitionOf(Reach(c, batches, actions).s, n);
  }

  lemma PartitionOf(s: State, n: nat)
    requires Inv(s)
    ensures |s.env.extents| == |s.win.frames| * (|s.env.announced| + 1)
    ensures Base(s) == |s.win.frames| * |s.env.announced|
    ensures Distinct(s.win.frames) && Distinct(s.win.retired)
    ensures Image(n) in s.env.live <==> InFrames(s, n) || InRetired(s, n)
    ensures Image(n) in s.env.live <==> Buffer(n) in s.env.live
    ensures Image(n) in s.env.live <==> Fd(n) in s.env.live
    ensures InFrames(s, n) <==> Base(s) <= n < |s.env.extents|
    ensures InRetired(s, n) ==> n < Base(s)
  {
    hide FeedbackOk, PacingOk, SizesOk, CommitsOk, ReleasesOk, CurrentBuffersOk, GpuOk, FencesOk, HeldOk;
    var N := |s.win.frames|;
    ImagesClosed(|s.env.announced|, N);
    forall i | 0 <= i < N
      ensures s.win.frames[i].image == Some(Base(s) + i)
    {
      assert SlotOk(s, i);
    }
    if Base(s) <= n < |s.env.extents| {
      assert s.win.frames[n - Base(s)].image == Some(n);
    }
    assert forall a | 0 <= a < |s.win.retired| :: RetiredOk(s, s.win.retired[a]);
    assert Owns(s, Image(n)) == Owns(s, Buffer(n)) == Owns(s, Fd(n)) == OwnsMemory(s, n);
  }

  /** The sync objects, timelines and fences made at construction stay with their slot for ever:
      a resize neither frees nor replaces one, and no retired entry holds any but the release sync
      object it borrows. */
  lemma SyncObjectsNeverMove(c: Config, batches: seq<seq<Happening>>, actions: seq<Action>, i: nat, n: nat)
    requires Constructed(c, batches) && i < |Reach(c, batches, actions).s.win.frames|
    ensures var s := Reach(c, batches, actions).s;
            var fb, first := s.win.frames[i], InitialSlot(i);
            && fb.acquireSyncobj == first.acquireSyncobj && fb.releaseSyncobj == first.releaseSyncobj
            && fb.acquireTimeline == first.acquireTimeline && fb.releaseTimeline == first.releaseTimeline
            && fb.renderFence == first.renderFence
            && (Syncobj(n) in s.env.live <==> n < 2 * |s.win.frames|)
            && (Timeline(n) in s.env.live <==> n < 2 * |s.win.frames|)
            && (Fence(n) in s.env.live <==> n < |s.win.frames|)
            && (forall a | 0 <= a < |s.win.retired| ::
                  s.win.retired[a].acquireSyncobj.None? && s.win.retired[a].renderFence.None?
                  && s.win.retired[a].acquireTimeline.None? && s.win.retired[a].releaseTimeline.None?)
  {
    var s := Reach(c, batches, actions).s;
    assert SlotOk(s, i);
    assert forall a | 0 <= a < |s.win.retired| :: RetiredOk(s, s.win.retired[a]);
    assert Owns(s, Syncobj(n)) == (n < 2 * |s.win.frames|) && Owns(s, Timeline(n)) == (n < 2 * |s.win.frames|);
    assert Owns(s, Fence(n)) == (n < |s.win.frames|);
  }

  // ---- fences and GPU work ----

  // Every submission that was to signal this fence has finished.
  ghost predicate WorkDone(env: Env, fence: Option<nat>) {
    forall j | 0 <= j < |env.jobs| && env.jobs[j].fence == fence :: j in env.done
  }

  /** With one submission per presented frame, a slot is handed out with its fence unsignalled and
      unattached and no unfinished job, although the CPU never waits on the fence. The fence is
      free if and only if no submission was left unpresented when wait_frame was called. */
  lemma HandedFenceIsFree(c: Config, batches: seq<seq<Happening>>, actions: seq<Action>, sc: Script)
    requires Constructed(c, batches)
    requires var y := Reach(c, batches, actions); y.blocked.None? && y.honest
    ensures var y := Reach(c, batches, actions);
            var (s', o) := NextFrame(y.s, sc);
            o.Handed? ==>
              && (FenceOf(s'.env, o.frame.renderFence) == Idle <==> AllIdle(y.s.env))
              && (AllIdle(y.s.env) ==> WorkDone(s'.env, o.frame.renderFence))
  {
    var y := Reach(c, batches, actions);
    var (s', o) := NextFrame(y.s, sc);
    NextFrameKeepsInv(y.s, sc);
    if o.Handed? {
      SameRingSize(y.s, s');
      HonestCarries(y.s, s');
      HandOutFrame(s');
      HonestHandOut(s', o.frame);
    }
  }

  lemma HonestHandOut(s: State, f: Frame)
    requires Inv(s) && HonestOk(s) && FrameOk(s, f)
    ensures FenceOf(s.env, f.renderFence) == Idle <==> AllIdle(s.env)
    ensures AllIdle(s.env) ==> WorkDone(s.env, f.renderFence)
  {
    var N, P := |s.win.frames|, |s.env.commits|;
    assert f.index == SlotOf(P, N);
    HandedSlotReturned(s, f.index);
    if AllIdle(s.env) {
      forall j | 0 <= j < |s.env.jobs| && s.env.jobs[j].fence == f.renderFence
        ensures j in s.env.done
      {
        assert CommitOk(s.env, j, N);
        assert s.env.acquire[AcquireKey(j, N)] == j && AcquireSignalled(s.env, j);
      }
    }
  }

  // ---- the timelines ----

  /** Commit k sets acquire and release point k div N + 1 on slot k mod N and attaches a buffer. */
  lemma PointsInOrder(c: Config, batches: seq<seq<Happening>>, actions: seq<Action>, k: nat)
    requires Constructed(c, batches) && k < |Reach(c, batches, actions).s.env.commits|
    ensures var s := Reach(c, batches, actions).s;
            var N := |s.win.frames|;
            && N > 0
            && s.env.commits[k].buffer.Some?
            && s.env.commits[k] == Commit(s.win.frames[k % N].acquireTimeline, k / N + 1,
                                          s.win.frames[k % N].releaseTimeline, k / N + 1,
                                          s.env.commits[k].buffer)
  {
    hide Reach;
    PointsOf(Reach(c, batches, actions).s, k);
  }

  lemma PointsOf(s: State, k: nat)
    requires Inv(s) && k < |s.env.commits|
    ensures var N := |s.win.frames|;
            && N > 0
            && s.env.commits[k].buffer.Some?
            && s.env.commits[k] == Commit(s.win.frames[k % N].acquireTimeline, k / N + 1,
                                          s.win.frames[k % N].releaseTimeline, k / N + 1,
                                          s.env.commits[k].buffer)
  {
    hide OwnershipOk, FeedbackOk, PacingOk, SizesOk, AllRetiredOk, ReleasesOk, CurrentBuffersOk, GpuOk, FencesOk;
    SlotAndPointClosed(k, |s.win.frames|);
    assert CommitOk(s.env, k, |s.win.frames|);
    assert SlotOk(s, SlotOf(k, |s.win.frames|));
  }

  /** At most one release point per slot is outstanding: below the counter everything is
      signalled, above it nothing. */
  lemma OneOutstandingPoint(c: Config, batches: seq<seq<Happening>>, actions: seq<Action>, i: nat, p: nat)
    requires Constructed(c, batches) && i < |Reach(c, batches, actions).s.win.frames|
    ensures var s := Reach(c, batches, actions).s;
            var fb := s.win.frames[i];
            && (1 <= p < fb.counter ==> ReleaseSignalled(s.env, fb.releaseSyncobj, p))
            && (p > fb.counter ==> !ReleaseSignalled(s.env, fb.releaseSyncobj, p))
  {
    PointSignalled(Reach(c, batches, actions).s, i, p);
  }

  lemma PointSignalled(s: State, i: nat, p: nat)
    requires RingOk(s) && i < |s.win.frames|
    ensures 1 <= p < s.win.frames[i].counter ==> ReleaseSignalled(s.env, Some(2 * i + 1), p)
    ensures p > s.win.frames[i].counter ==> !ReleaseSignalled(s.env, Some(2 * i + 1), p)
    ensures s.win.frames[i].releaseSyncobj == Some(2 * i + 1)
  {
    var N, P := |s.win.frames|, |s.env.commits|;
    assert SlotOk(s, i);
    if 1 <= p < s.win.frames[i].counter {
      var k := CommitFor(P, i, p, N);
      assert CommitOk(s.env, k, N);
      PointBelowCounter(k, P, N);
    }
    if ReleaseSignalled(s.env, Some(2 * i + 1), p) {
      var k :| k in s.env.released && k < P
               && s.env.commits[k].release == Some(2 * i + 1) && s.env.commits[k].releasePoint >= p;
      assert CommitOk(s.env, k, N);
      PointBelowCounter(k, P, N);
    }
  }

  // The commit that gave slot i its point p.
  lemma {:induction false} CommitFor(P: int, i: nat, p: nat, N: nat) returns (k: nat)
    requires i < N && 1 <= p <= CounterAt(P, i, N)
    ensures k < P && SlotOf(k, N) == i && PointOf(k, N) == p
    decreases P
  {
    if p == 1 {
      k := i;
    } else {
      var j := CommitFor(P - N, i, p - 1, N);
      k := j + N;
    }
  }

  /** A retired entry's counter never exceeds its slot's; once it is below, its point is signalled. */
  lemma RetiredCounters(c: Config, batches: seq<seq<Happening>>, actions: seq<Action>, a: nat)
    requires Constructed(c, batches) && a < |Reach(c, batches, actions).s.win.retired|
    ensures var s := Reach(c, batches, actions).s;
            var fb := s.win.retired[a];
            exists i | 0 <= i < |s.win.frames| ::
              && fb.releaseSyncobj == s.win.frames[i].releaseSyncobj
              && fb.counter <= s.win.frames[i].counter
              && (0 < fb.counter < s.win.frames[i].counter ==>
                    ReleaseSignalled(s.env, fb.releaseSyncobj, fb.counter))
  {
    var s := Reach(c, batches, actions).s;
    var fb := s.win.retired[a];
    assert RetiredOk(s, fb);
    var i := fb.releaseSyncobj.value / 2;
    PointSignalled(s, i, fb.counter);
    assert fb.releaseSyncobj == s.win.frames[i].releaseSyncobj;
  }

  /** After P presents, over any mix of failed waits and resizes, the next slot is P mod N, slot i
      has been committed (P + N - 1 - i) div N times, and only the next slot can be handed out. */
  lemma RingClosedForm(c: Config, batches: seq<seq<Happening>>, actions: seq<Action>, i: nat)
    requires Constructed(c, batches) && i < |Reach(c, batches, actions).s.win.frames|
    ensures var s := Reach(c, batches, actions).s;
            var N, P := |s.win.frames|, |s.env.commits|;
            && s.win.nextFrame == P % N
            && s.win.frames[i].counter == (P + N - 1 - i) / N
            && (s.win.handedIndex.None? || s.win.handedIndex.value == s.win.nextFrame)
  {
    var s := Reach(c, batches, actions).s;
    SlotAndPointClosed(|s.env.commits|, |s.win.frames|);
    CounterClosed(|s.env.commits|, i, |s.win.frames|);
    assert SlotOk(s, i);
  }

  /** A frame that has been presented, or that a resize has replaced, is refused from then on,
      whatever events arrive in between. */
  lemma PresentedAtMostOnce(s: State, i: nat, j: nat, hs: seq<Happening>)
    requires RingShape(s)
    ensures CommitFrame(HandleResize(s), j) == (HandleResize(s), Some(StaleFrame))
    ensures var (s', e) := CommitFrame(s, i);
            && (e.None? ==> RingShape(s') && CommitFrame(s', j) == (s', Some(StaleFrame)))
            && (e.Some? ==> s' == s)
            && (e.None? ==> RingShape(HappenAll(s', hs)))
            && (e.None? ==> CommitFrame(HappenAll(s', hs), j) == (HappenAll(s', hs), Some(StaleFrame)))
    ensures RingShape(HappenAll(HandleResize(s), hs))
    ensures CommitFrame(HappenAll(HandleResize(s), hs), j).1 == Some(StaleFrame)
  {
    hide DropFeedbacks, Memory, AllRetired, AllRenewed, UpTo, HappenAll;
    HappenAllUntouched(HandleResize(s), hs);
    HappenAllUntouched(CommitFrame(s, i).0, hs);
  }

  // ---- pacing ----

  /** Presents never run ahead of frame callbacks by more than one, whatever the calling pattern;
      at most one callback is outstanding, and none was ever dropped or overwritten. */
  lemma PacedByCallbacks(c: Config, batches: seq<seq<Happening>>, actions: seq<Action>)
    requires Constructed(c, batches)
    ensures var s := Reach(c, batches, actions).s;
            && |s.env.commits| <= s.env.frameDones + 1
            && s.env.callbacks == s.env.frameDones + (if s.win.frameCallback.Some? then 1 else 0)
            && (forall n: nat :: Callback(n) in s.env.live <==> s.win.frameCallback == Some(n))
  {
    var s := Reach(c, batches, actions).s;
    assert forall n: nat :: Owns(s, Callback(n)) <==> s.win.frameCallback == Some(n);
  }

  // ---- blocking ----

  lemma AwaitingKeepsHanded(s: State, sc: Script)
    requires Inv(s) && Settled(s) && RingShape(s) && NextFrame(s, sc).1.AwaitingFrame?
    ensures NextFrame(s, sc).0.win.handedIndex == s.win.handedIndex
  {
    hide Inv, Settled, ReapFrom, PollLoop, Granted, ReleaseLoop;
    var s1 := if s.win.retired != [] then ReapFrom(s, 0, sc.reap) else s;
    ReapFromFrame(s, 0, sc.reap);
    ReapSettles(s, sc.reap);
    InvShape(s1);
    PollLoopUntouched(s1, sc.polls);
    var s2 := PollLoop(s1, sc.polls);
    if !s1.win.presentedOnce {
      GrantedLoop(s1, sc.attempts);
    } else if s2.win.frameDue && !s2.win.closed {
      PollLoopKeepsInv(s1, sc.polls);
      InvShape(s2);
      GrantedLoop(s2, sc.attempts);
    }
  }

  /** A wait_frame that is still waiting for its frame callback will be woken by one if and only if
      the frame handed out last had been presented when it was called. */
  lemma FrameWaitProgress(c: Config, batches: seq<seq<Happening>>, actions: seq<Action>, sc: Script)
    requires Constructed(c, batches) && Reach(c, batches, actions).blocked.None?
    requires NextFrame(Reach(c, batches, actions).s, sc).1.AwaitingFrame?
    ensures var s := Reach(c, batches, actions).s;
            Deliverable(NextFrame(s, sc).0, FrameDone) <==> s.win.handedIndex.None?
  {
    hide Reach, NextFrame, RingOk, OwnershipOk, FeedbackOk, SizesOk;
    var y := Reach(c, batches, actions);
    NextFrameKeepsInv(y.s, sc);
    AwaitingKeepsHanded(y.s, sc);
  }

  lemma {:induction false} PollLoopContinues(s: State, polls: seq<seq<Happening>>, more: seq<seq<Happening>>)
    requires !PollLoop(s, polls).win.frameDue && !PollLoop(s, polls).win.closed
    ensures PollLoop(s, polls + more) == PollLoop(PollLoop(s, polls), more)
    decreases |polls|
  {
    hide HappenAll;
    if polls == [] {
      assert polls + more == more;
    } else {
      assert (polls + more)[1..] == polls[1..] + more;
      PollLoopContinues(HappenAll(s, polls[0]), polls[1..], more);
    }
  }

  /** ... and the frame callback is then all it takes for the same call to get past its first loop. */
  lemma FrameWaitCompletes(c: Config, batches: seq<seq<Happening>>, actions: seq<Action>, sc: Script)
    requires Constructed(c, batches) && Reach(c, batches, actions).blocked.None?
    requires NextFrame(Reach(c, batches, actions).s, sc).1.AwaitingFrame?
    ensures var s := Reach(c, batches, actions).s;
            NextFrame(s, sc.(polls := sc.polls + [[Wayland(FrameDone)]])).1.AwaitingFrame?
            <==> s.win.handedIndex.Some?
  {
    hide Reach, Inv, ReapFrom, PollLoop, Granted, ReleaseLoop;
    var y := Reach(c, batches, actions);
    FrameWaitProgress(c, batches, actions, sc);
    FirstLoop(y.s, sc);
    var s1 := if y.s.win.retired != [] then ReapFrom(y.s, 0, sc.reap) else y.s;
    var s2, more := PollLoop(s1, sc.polls), [[Wayland(FrameDone)]];
    PollLoopContinues(s1, sc.polls, more);
    OneCallback(s2);
    FirstLoop(y.s, sc.(polls := sc.polls + more));
  }

  // wait_frame is in its first loop exactly when that loop has run out of events.
  lemma FirstLoop(s: State, sc: Script)
    requires Inv(s) && Settled(s) && RingShape(s)
    ensures var s1 := if s.win.retired != [] then ReapFrom(s, 0, sc.reap) else s;
            var s2 := PollLoop(s1, sc.polls);
            && (NextFrame(s, sc).1.AwaitingFrame? <==>
                  s1.win.presentedOnce && !s2.win.frameDue && !s2.win.closed)
            && (NextFrame(s, sc).1.AwaitingFrame? ==> NextFrame(s, sc).0 == s2)
  {
    hide Inv, Settled, ReapFrom, PollLoop, Granted, ReleaseLoop;
    var s1 := if s.win.retired != [] then ReapFrom(s, 0, sc.reap) else s;
    var s2 := PollLoop(s1, sc.polls);
    ReapFromFrame(s, 0, sc.reap);
    ReapSettles(s, sc.reap);
    InvShape(s1);
    PollLoopKeepsInv(s1, sc.polls);
    InvShape(s2);
    if !s1.win.presentedOnce {
      GrantedLoop(s1, sc.attempts);
    } else if s2.win.frameDue && !s2.win.closed {
      GrantedLoop(s2, sc.attempts);
    }
  }

  lemma OneCallback(s: State)
    requires !s.win.frameDue && !s.win.closed
    ensures var s' := PollLoop(s, [[Wayland(FrameDone)]]);
            && !s'.win.closed && (s'.win.frameDue <==> Deliverable(s, FrameDone))
  {
    var batch: seq<Happening> := [Wayland(FrameDone)];
    var batches := [batch];
    assert batch[1..] == [] && batches[1..] == [];
    assert HappenAll(s, batch) == HappenAll(Dispatch(s, FrameDone), []);
    assert PollLoop(s, batches) == PollLoop(HappenAll(s, batch), []);
  }

  // The compositor can show something newer: commit k and some later commit have both finished
  // rendering. It must give k back.
  ghost predicate MustRelease(env: Env, k: nat) {
    && k < |env.commits| && k !in env.released && AcquireSignalled(env, k)
    && exists j | k < j < |env.commits| :: AcquireSignalled(env, j)
  }

  // Only a GPU job stands between commit k and the compositor.
  ghost predicate WaitsForGpu(env: Env, k: nat) {
    && k < |env.commits| && !AcquireSignalled(env, k)
    && exists j | 0 <= j < |env.jobs| :: j !in env.done && AcquireSignalled(Kernel(env, JobDone(j)), k)
  }

  lemma UnsignalledWaitsForGpu(s: State, k: nat)
    requires RingOk(s) && k < |s.env.commits| && !AcquireSignalled(s.env, k)
    ensures WaitsForGpu(s.env, k)
  {
    assert CommitOk(s.env, k, |s.win.frames|);
    var job := s.env.acquire[(s.env.commits[k].acquire, s.env.commits[k].acquirePoint)];
    assert job !in s.env.done && AcquireSignalled(Kernel(s.env, JobDone(job)), k);
  }

  /** A wait_frame that blocks for its slot waits for the slot's last commit, N presents ago. That
      commit is released, or its own GPU job is pending; otherwise the GPU still works on the newest
      commit or the compositor owes the buffer - exactly when there are at least two buffers. */
  lemma ReleaseWaitProgress(c: Config, batches: seq<seq<Happening>>, actions: seq<Action>)
    requires Constructed(c, batches)
    requires Reach(c, batches, actions).blocked == Some(AwaitingRelease)
    ensures var s := Reach(c, batches, actions).s;
            var N, P := |s.win.frames|, |s.env.commits|;
            && P >= N > 0
            && s.env.commits[P - N].release == s.win.frames[s.win.nextFrame].releaseSyncobj
            && s.env.commits[P - N].releasePoint == s.win.frames[s.win.nextFrame].counter
            && (!AcquireSignalled(s.env, P - N) ==> WaitsForGpu(s.env, P - N))
            && (AcquireSignalled(s.env, P - N) && P - N !in s.env.released ==>
                  (MustRelease(s.env, P - N) || WaitsForGpu(s.env, P - 1) <==> N >= 2))
  {
    hide Inv;
    var s := Reach(c, batches, actions).s;
    AwaitedCommit(s);
    var k, newest := |s.env.commits| - |s.win.frames|, |s.env.commits| - 1;
    if !AcquireSignalled(s.env, k) {
      UnsignalledWaitsForGpu(s, k);
    }
    if !AcquireSignalled(s.env, newest) {
      UnsignalledWaitsForGpu(s, newest);
    }
  }

  // What a slot with a positive counter waits for.
  lemma AwaitedCommit(s: State)
    requires Inv(s) && RingShape(s) && s.win.frames[s.win.nextFrame].counter > 0
    ensures RingOk(s)
    ensures var N, P := |s.win.frames|, |s.env.commits|;
            && P >= N > 0
            && s.env.commits[P - N].release == s.win.frames[s.win.nextFrame].releaseSyncobj
            && s.env.commits[P - N].releasePoint == s.win.frames[s.win.nextFrame].counter
            && (s.env.commits[P - N].acquire, s.env.commits[P - N].acquirePoint) in s.env.acquire
            && s.env.acquire[(s.env.commits[P - N].acquire, s.env.commits[P - N].acquirePoint)] < |s.env.jobs|
  {
    assert SlotOk(s, s.win.nextFrame);
    LastCommitOf(|s.env.commits|, |s.win.frames|);
    assert CommitOk(s.env, |s.env.commits| - |s.win.frames|, |s.win.frames|);
  }

  lemma {:induction false} ReleaseLoopContinues(s: State, attempts: seq<Attempt>, more: seq<Attempt>)
    requires RingShape(s)
    ensures var (s', o) := ReleaseLoop(s, attempts);
            && RingShape(s')
            && (o.AwaitingRelease? ==> ReleaseLoop(s, attempts + more) == ReleaseLoop(s', more))
    decreases |attempts|
  {
    hide HappenAll, KernelAll, ReleaseSignalled;
    if attempts == [] {
      assert attempts + more == more;
    } else {
      assert (attempts + more)[1..] == attempts[1..] + more;
      var s1 := s.(env := KernelAll(s.env, attempts[0].probe.kernel));
      var s2 := HappenAll(s1, attempts[0].drained);
      HappenAllUntouched(s1, attempts[0].drained);
      ReleaseLoopContinues(s2, attempts[1..], more);
    }
  }

  // The GPU finishes a job, the compositor releases a commit, and the wait sees it.
  function OneMoreTurn(job: nat, commit: nat): Attempt {
    Attempt(Probe([JobDone(job), Release(commit)], false), [])
  }

  lemma TurnHandsOut(s: State)
    requires Inv(s) && RingShape(s) && s.win.frames[s.win.nextFrame].counter > 0
    ensures |s.env.commits| >= |s.win.frames| > 0
    ensures var k := |s.env.commits| - |s.win.frames|;
            var point := (s.env.commits[k].acquire, s.env.commits[k].acquirePoint);
            point in s.env.acquire && ReleaseLoop(s, [OneMoreTurn(s.env.acquire[point], k)]).1.Handed?
  {
    hide Inv, RingOk;
    AwaitedCommit(s);
    var k := |s.env.commits| - |s.win.frames|;
    var job := s.env.acquire[(s.env.commits[k].acquire, s.env.commits[k].acquirePoint)];
    var e1 := Kernel(s.env, JobDone(job));
    var e2 := Kernel(e1, Release(k));
    assert [JobDone(job), Release(k)][1..] == [Release(k)] && [Release(k)][1..] == [];
    assert KernelAll(s.env, [JobDone(job), Release(k)]) == KernelAll(e1, [Release(k)]) == KernelAll(e2, []) == e2;
    assert k in e2.released;
  }

  // Commit N presents back finishes rendering and is released, and one more timed wait notices.
  ghost predicate OneTurnCompletes(s: State, sc: Script)
    requires RingShape(s)
  {
    var s' := NextFrame(s, sc).0;
    var k := |s'.env.commits| - |s'.win.frames|;
    && 0 <= k < |s'.env.commits|
    && var point := (s'.env.commits[k].acquire, s'.env.commits[k].acquirePoint);
       && point in s'.env.acquire
       && NextFrame(s, sc.(attempts := sc.attempts + [OneMoreTurn(s'.env.acquire[point], k)])).1.Handed?
  }

  lemma BlockedWaitCompletes(s: State, sc: Script)
    requires Inv(s) && Settled(s) && RingShape(s) && NextFrame(s, sc).1.AwaitingRelease?
    ensures OneTurnCompletes(s, sc)
  {
    hide Inv, Settled, NextFrame, ReleaseLoop, OneMoreTurn;
    var s' := NextFrame(s, sc).0;
    NextFrameKeepsInv(s, sc);
    TurnHandsOut(s');
    var k := |s'.env.commits| - |s'.win.frames|;
    var job := s'.env.acquire[(s'.env.commits[k].acquire, s'.env.commits[k].acquirePoint)];
    NextFrameContinues(s, sc, [OneMoreTurn(job, k)]);
  }

  /** No wait for a slot is stuck: from wherever it blocks, the awaited commit's GPU job and its
      release are all it takes for the very same call to hand out a frame. */
  lemma ReleaseWaitCompletes(c: Config, batches: seq<seq<Happening>>, actions: seq<Action>, sc: Script)
    requires Constructed(c, batches) && Reach(c, batches, actions).blocked.None?
    requires NextFrame(Reach(c, batches, actions).s, sc).1.AwaitingRelease?
    ensures OneTurnCompletes(Reach(c, batches, actions).s, sc)
  {
    hide Reach, Inv, NextFrame, OneTurnCompletes, HonestOk, Settled;
    BlockedWaitCompletes(Reach(c, batches, actions).s, sc);
  }

  lemma NextFrameContinues(s: State, sc: Script, more: seq<Attempt>)
    requires RingShape(s) && NextFrame(s, sc).1.AwaitingRelease?
    ensures RingShape(NextFrame(s, sc).0)
    ensures NextFrame(s, sc.(attempts := sc.attempts + more)) == ReleaseLoop(NextFrame(s, sc).0, more)
  {
    hide ReapFrom, PollLoop, Granted, ReleaseLoop;
    var s1 := if s.win.retired != [] then ReapFrom(s, 0, sc.reap) else s;
    ReapFromFrame(s, 0, sc.reap);
    PollLoopUntouched(s1, sc.polls);
    GrantedFrame(s1);
    GrantedFrame(PollLoop(s1, sc.polls));
    if s1.win.presentedOnce {
      ReleaseLoopContinues(Granted(PollLoop(s1, sc.polls)), sc.attempts, more);
    } else {
      ReleaseLoopContinues(Granted(s1), sc.attempts, more);
    }
  }

  lemma GrantedFrame(s: State)
    requires RingShape(s)
    ensures RingShape(Granted(s))
  {
  }

  // ---- resizing ----

  /** No resize is lost: unless one is pending, the window has the last positive size the
      compositor configured; every current image has the window's size, which is positive and is
      what on_resize last announced. */
  lemma NoResizeLost(c: Config, batches: seq<seq<Happening>>, actions: seq<Action>, i: nat)
    requires Constructed(c, batches) && i < |Reach(c, batches, actions).s.win.frames|
    ensures var s := Reach(c, batches, actions).s;
            var size := (s.win.width, s.win.height);
            && size.0 > 0 && size.1 > 0
            && (!s.win.resizePending && s.env.lastConfigure.Some? ==> s.env.lastConfigure.value == size)
            && s.win.frames[i].image.Some? && s.win.frames[i].image.value < |s.env.extents|
            && s.env.extents[s.win.frames[i].image.value] == size
            && (s.env.announced != [] ==> s.env.announced[|s.env.announced| - 1] == size)
  {
    assert SlotOk(Reach(c, batches, actions).s, i);
  }

  // ---- presentation feedback ----

  /** Every feedback object a slot refers to is live and no other slot's; the objects ever created
      are the presented, the discarded, those a resize destroyed, and the live ones. */
  lemma FeedbackConserved(c: Config, batches: seq<seq<Happening>>, actions: seq<Action>)
    requires Constructed(c, batches)
    ensures var s := Reach(c, batches, actions).s;
            && DistinctFeedback(s.win.frames)
            && (forall i | 0 <= i < |s.win.frames| && s.win.frames[i].presentFeedback.Some? ::
                  s.win.frames[i].presentFeedback.value in s.env.liveFeedbacks)
            && s.env.feedbacks == s.win.stats.presented + s.win.stats.discarded
                                  + s.env.resizeDestroyed + |s.env.liveFeedbacks|
  {
    assert Good(Reach(c, batches, actions));
  }
}
