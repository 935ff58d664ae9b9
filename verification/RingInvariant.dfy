/** What every step of the ring keeps. */
module RingInvariant {
  import opened Prelude
  import opened Ring
  import opened RingArithmetic

  // ---- the invariant, one concern at a time ----

  // Images of the current generation are numbered from here.
  ghost function Base(s: State): int {
    |s.env.extents| - |s.win.frames|
  }

  // Slot i: its own sync objects and fence, current memory, and the counter of the closed form.
  ghost predicate SlotOk(s: State, i: nat)
    requires i < |s.win.frames|
  {
    var fb, n := s.win.frames[i], Base(s) + i;
    && n >= 0
    && fb.image == fb.buffer == fb.dmaBufFd == Some(n)
    && fb.acquireSyncobj == fb.acquireTimeline == Some(2 * i)
    && fb.releaseSyncobj == fb.releaseTimeline == Some(2 * i + 1)
    && fb.renderFence == Some(i)
    && fb.counter == CounterAt(|s.env.commits|, i, |s.win.frames|)
  }

  ghost predicate SlotsOk(s: State) {
    var N := |s.win.frames|;
    && N > 0
    && |s.env.extents| == ImagesAfter(|s.env.announced|, N)
    && |s.env.fences| == N
    && Base(s) >= 0
    && (forall i | 0 <= i < N :: SlotOk(s, i))
    && s.win.nextFrame == SlotOf(|s.env.commits|, N)
    && (s.win.handedIndex.Some? ==> s.win.handedIndex.value == s.win.nextFrame)
    && (s.win.presentedOnce <==> |s.env.commits| > 0)
  }

  // Commit k set both points of its slot's timelines and attached a buffer.
  ghost predicate CommitOk(env: Env, k: nat, N: nat)
    requires k < |env.commits| && N > 0
  {
    var c, i, p := env.commits[k], SlotOf(k, N), PointOf(k, N);
    && c.acquire == Some(2 * i) && c.acquirePoint == p
    && c.release == Some(2 * i + 1) && c.releasePoint == p
    && c.buffer.Some? && c.buffer.value < |env.extents|
    && (c.acquire, c.acquirePoint) in env.acquire
    && env.acquire[(c.acquire, c.acquirePoint)] < |env.jobs|
  }

  ghost predicate CommitsOk(env: Env, N: nat)
    requires N > 0
  {
    forall k | 0 <= k < |env.commits| :: CommitOk(env, k, N)
  }

  // Everything the ring has lapped is released; a slot is handed out only once its previous
  // commit is; and nothing is released before the GPU work it waited for.
  ghost predicate ReleasesOk(s: State) {
    var N, P := |s.win.frames|, |s.env.commits|;
    && (forall k | k in s.env.released :: k < P && AcquireSignalled(s.env, k))
    && (forall k | 0 <= k && k + N < P :: k in s.env.released)
    && (s.win.handedIndex.Some? ==> forall k | 0 <= k && k + N <= P :: k in s.env.released)
  }

  // A commit that attached a current buffer was a commit of that buffer's slot.
  ghost predicate CurrentBuffersOk(s: State) {
    forall k, i | 0 <= k < |s.env.commits| && 0 <= i < |s.win.frames| ::
      s.env.commits[k].buffer == s.win.frames[i].buffer ==> SlotOf(k, |s.win.frames|) == i
  }

  ghost predicate RetiredOk(s: State, fb: FrameSlot) {
    && fb.image.Some? && fb.image.value < Base(s)
    && fb.image == fb.buffer == fb.dmaBufFd
    && !fb.released
    && fb.acquireSyncobj.None? && fb.acquireTimeline.None? && fb.releaseTimeline.None? && fb.renderFence.None?
    && fb.releaseSyncobj.Some? && fb.releaseSyncobj.value % 2 == 1
    && fb.releaseSyncobj.value / 2 < |s.win.frames|
    && fb.counter <= s.win.frames[fb.releaseSyncobj.value / 2].counter
    && (forall k | 0 <= k < |s.env.commits| && s.env.commits[k].buffer == fb.buffer ::
          s.env.commits[k].release == fb.releaseSyncobj && s.env.commits[k].releasePoint <= fb.counter)
  }

  // Retired entries are in creation order, older than every current image.
  ghost predicate AllRetiredOk(s: State) {
    && (forall a | 0 <= a < |s.win.retired| :: RetiredOk(s, s.win.retired[a]))
    && (forall a, b | 0 <= a < b < |s.win.retired| ::
          s.win.retired[a].image.value < s.win.retired[b].image.value)
  }

  // Unfinished GPU work writes current images only.
  ghost predicate GpuOk(s: State) {
    forall j | 0 <= j < |s.env.jobs| && j !in s.env.done ::
      s.env.jobs[j].image.Some? && Base(s) <= s.env.jobs[j].image.value < |s.env.extents|
  }

  ghost predicate FencesOk(s: State) {
    forall i | 0 <= i < |s.env.fences| && s.env.fences[i].Busy? :: s.env.fences[i].job < |s.env.jobs|
  }

  ghost predicate OwnsMemory(s: State, n: nat) {
    (Base(s) <= n < |s.env.extents|)
    || exists a | 0 <= a < |s.win.retired| :: s.win.retired[a].image == Some(n)
  }

  ghost predicate Owns(s: State, r: Resource) {
    match r
    case Image(n) => OwnsMemory(s, n)
    case Buffer(n) => OwnsMemory(s, n)
    case Fd(n) => OwnsMemory(s, n)
    case Syncobj(n) => n < 2 * |s.win.frames|
    case Timeline(n) => n < 2 * |s.win.frames|
    case Fence(n) => n < |s.win.frames|
    case Callback(n) => s.win.frameCallback == Some(n)
  }

  // Whatever the compositor may read is still owned.
  ghost predicate HeldOk(s: State) {
    forall n: nat :: CompositorHolds(s.env, n) ==> OwnsMemory(s, n)
  }

  // The live handles are exactly the owned ones; none was freed twice or under a user.
  ghost predicate OwnershipOk(s: State) {
    && (forall r :: r in s.env.live <==> Owns(s, r))
    && HeldOk(s)
    && s.env.doubleFrees == 0 && s.env.hazards == 0
  }

  ghost predicate DistinctFeedback(frames: seq<FrameSlot>) {
    forall i, j | 0 <= i < j < |frames| && frames[i].presentFeedback.Some? ::
      frames[i].presentFeedback != frames[j].presentFeedback
  }

  // Feedback f belongs to commit f. Until the slot is committed again a live one is the slot's own.
  ghost predicate FeedbackHistoryOk(s: State) {
    var N, P := |s.win.frames|, |s.env.commits|;
    && N > 0
    && s.env.feedbacks == (if s.win.collectStats then P else 0)
    && (forall f | f in s.env.liveFeedbacks ::
          f < s.env.feedbacks && (f + N < P || s.win.frames[SlotOf(f, N)].presentFeedback == Some(f)))
    && (forall i | 0 <= i < N && s.win.frames[i].presentFeedback.Some? ::
          var f := s.win.frames[i].presentFeedback.value; SlotOf(f, N) == i && f < P <= f + N)
  }

  ghost predicate FeedbackOk(s: State) {
    && (forall i | 0 <= i < |s.win.frames| && s.win.frames[i].presentFeedback.Some? ::
          s.win.frames[i].presentFeedback.value in s.env.liveFeedbacks)
    && DistinctFeedback(s.win.frames)
    && FeedbackHistoryOk(s)
    && s.env.feedbacks == s.win.stats.presented + s.win.stats.discarded
                          + s.env.resizeDestroyed + |s.env.liveFeedbacks|
  }

  // Every present but the first has been paid for by a frame callback of its own.
  ghost predicate Paid(s: State) {
    |s.env.commits| > 0 ==> |s.env.commits| <= s.env.frameDones
  }

  // The next commit will carry a frame callback of its own, unless the window is closed.
  ghost predicate Armed(s: State) {
    !s.win.frameDue && !s.env.callbackCommitted && (s.win.closed || s.win.frameCallback.Some?)
  }

  ghost predicate PacingOk(s: State) {
    && s.env.callbacks == s.env.frameDones + (if s.win.frameCallback.Some? then 1 else 0)
    && (s.win.frameCallback.Some? ==> s.win.frameCallback.value + 1 == s.env.callbacks)
    && (s.win.frameDue ==> s.win.frameCallback.None?)
    && (s.env.callbackCommitted ==> s.win.frameCallback.Some?)
    && (|s.env.commits| == 0 ==> !s.env.callbackCommitted && s.env.frameDones == 0 && !s.win.frameDue)
    && |s.env.commits| <= s.env.frameDones + 1
    && (s.win.frameDue || s.win.handedIndex.Some? ==> Paid(s))
    && (s.win.handedIndex.Some? ==> Armed(s))
    && (|s.env.commits| > 0 && !s.win.closed && !s.win.frameDue ==> s.win.frameCallback.Some?)
  }

  // Between calls, and while waiting for a frame callback: the last handed frame was presented
  // exactly if the outstanding callback has been committed.
  ghost predicate Settled(s: State) {
    (|s.env.commits| > 0 && !s.win.closed && !s.win.frameDue && s.win.handedIndex.None?)
    ==> s.env.callbackCommitted
  }

  ghost predicate PendingOk(s: State) {
    && (s.env.lastConfigure.None? ==> s.win.pendingWidth == 0 && s.win.pendingHeight == 0 && !s.win.resizePending)
    && (s.env.lastConfigure.Some? ==>
          s.win.pendingWidth > 0 && s.win.pendingHeight > 0
          && s.env.lastConfigure.value == (s.win.pendingWidth, s.win.pendingHeight))
  }

  ghost predicate SizesOk(s: State) {
    && s.win.configured && PendingOk(s)
    && s.win.width > 0 && s.win.height > 0
    && (!s.win.resizePending && s.env.lastConfigure.Some? ==>
          s.env.lastConfigure.value == (s.win.width, s.win.height))
    && (forall n | Base(s) <= n < |s.env.extents| && n >= 0 :: s.env.extents[n] == (s.win.width, s.win.height))
    && (s.env.announced != [] ==> s.env.announced[|s.env.announced| - 1] == (s.win.width, s.win.height))
  }

  // The ring proper: slots, history, retired memory and GPU work.
  ghost predicate RingOk(s: State) {
    && SlotsOk(s)
    && CommitsOk(s.env, |s.win.frames|) && ReleasesOk(s)
    && CurrentBuffersOk(s) && AllRetiredOk(s)
    && GpuOk(s) && FencesOk(s)
  }

  ghost predicate Inv(s: State) {
    RingOk(s) && OwnershipOk(s) && FeedbackOk(s) && PacingOk(s) && SizesOk(s)
  }

  // ---- steps that touch neither the slots' memory and points nor the history ----

  ghost predicate SameHistory(e: Env, e': Env) {
    && e'.extents == e.extents && e'.jobs == e.jobs && e'.fences == e.fences
    && e'.acquire == e.acquire && e'.commits == e.commits && e'.announced == e.announced
    && e.done <= e'.done && e.released <= e'.released
  }

  ghost predicate SameRing(s: State, s': State) {
    && SameHistory(s.env, s'.env)
    && |s'.win.frames| == |s.win.frames|
    && (forall i | 0 <= i < |s.win.frames| ::
          s'.win.frames[i] == s.win.frames[i].(presentFeedback := s'.win.frames[i].presentFeedback))
    && s'.win.retired == s.win.retired && s'.win.nextFrame == s.win.nextFrame
    && s'.win.handedIndex == s.win.handedIndex && s'.win.presentedOnce == s.win.presentedOnce
  }

  lemma CommitsCarry(e: Env, e': Env, N: nat)
    requires N > 0 && CommitsOk(e, N) && SameHistory(e, e')
    ensures CommitsOk(e', N)
    ensures forall k | 0 <= k < |e.commits| && AcquireSignalled(e, k) :: AcquireSignalled(e', k)
  {
    forall k | 0 <= k < |e.commits|
      ensures CommitOk(e', k, N)
    {
      assert CommitOk(e, k, N);
    }
  }

  lemma SlotsCarry(s: State, s': State)
    requires SlotsOk(s) && SameRing(s, s')
    ensures SlotsOk(s')
  {
    forall i | 0 <= i < |s.win.frames|
      ensures SlotOk(s', i)
    {
      assert SlotOk(s, i);
    }
  }

  lemma RetiredCarry(s: State, s': State)
    requires SlotsOk(s) && AllRetiredOk(s) && SameRing(s, s')
    ensures AllRetiredOk(s')
  {
    forall a | 0 <= a < |s.win.retired|
      ensures RetiredOk(s', s'.win.retired[a])
    {
      assert RetiredOk(s, s.win.retired[a]);
    }
  }

  lemma RingCarries(s: State, s': State)
    requires RingOk(s) && SameRing(s, s')
    requires forall k | k in s'.env.released && k !in s.env.released ::
               k < |s.env.commits| && AcquireSignalled(s.env, k)
    ensures RingOk(s')
  {
    SlotsCarry(s, s');
    CommitsCarry(s.env, s'.env, |s.win.frames|);
    RetiredCarry(s, s');
  }

  // ---- the kernel side ----

  lemma KernelKeepsInv(s: State, e: KernelEvent)
    requires Inv(s)
    ensures Inv(s.(env := Kernel(s.env, e)))
  {
    hide RingOk, OwnershipOk;
    var s' := s.(env := Kernel(s.env, e));
    RingCarries(s, s');
    SameOwnership(s, s');
  }

  lemma HeldCarries(s: State, s': State)
    requires HeldOk(s) && s'.env.commits == s.env.commits && s.env.released <= s'.env.released
    requires forall n: nat :: OwnsMemory(s, n) ==> OwnsMemory(s', n)
    ensures HeldOk(s')
  {
    hide OwnsMemory;
    forall n: nat | CompositorHolds(s'.env, n)
      ensures OwnsMemory(s', n)
    {
      assert CompositorHolds(s.env, n);
    }
  }

  lemma SameOwnership(s: State, s': State)
    requires OwnershipOk(s) && SameRing(s, s')
    requires s'.env.live == s.env.live && s'.win.frameCallback == s.win.frameCallback
    requires s'.env.doubleFrees == s.env.doubleFrees && s'.env.hazards == s.env.hazards
    ensures OwnershipOk(s')
  {
    assert forall r :: Owns(s', r) <==> Owns(s, r);
    HeldCarries(s, s');
  }

  lemma {:induction false} KernelAllKeepsInv(s: State, es: seq<KernelEvent>)
    requires Inv(s)
    ensures Inv(s.(env := KernelAll(s.env, es)))
    ensures KernelOnly(s.env, KernelAll(s.env, es))
    decreases |es|
  {
    if es != [] {
      var s1 := s.(env := Kernel(s.env, es[0]));
      KernelKeepsInv(s, es[0]);
      KernelAllKeepsInv(s1, es[1..]);
      assert s1.(env := KernelAll(s1.env, es[1..])) == s.(env := KernelAll(s.env, es));
    }
  }

  // ---- listeners ----

  lemma {:induction false} ForgetFeedbackEffect(frames: seq<FrameSlot>, f: nat)
    ensures var r := ForgetFeedback(frames, f);
            forall i | 0 <= i < |frames| ::
              && r[i] == frames[i].(presentFeedback := r[i].presentFeedback)
              && (|| r[i].presentFeedback == frames[i].presentFeedback
                  || (r[i].presentFeedback == None && frames[i].presentFeedback == Some(f)))
    ensures DistinctFeedback(frames) ==> forall i | 0 <= i < |frames| ::
              ForgetFeedback(frames, f)[i].presentFeedback != Some(f)
    decreases |frames|
  {
    if frames != [] && frames[0].presentFeedback != Some(f) {
      assert DistinctFeedback(frames) ==> DistinctFeedback(frames[1..]);
      ForgetFeedbackEffect(frames[1..], f);
    }
  }

  lemma DispatchKeepsInv(s: State, e: Event)
    requires Inv(s)
    ensures Inv(Dispatch(s, e))
  {
    hide RingOk, OwnershipOk, FeedbackOk, PacingOk, Configure;
    if Deliverable(s, e) {
      match e
      case FrameDone => FrameDoneKeepsInv(s);
      case ToplevelConfigure(w, h) => ConfigureKeepsInv(s, w, h);
      case SurfaceConfigure => FlagsKeepInv(s, Dispatch(s, e));
      case Close => FlagsKeepInv(s, Dispatch(s, e));
      case Presented(f, t, refresh) => FeedbackKeepsInv(s, Dispatch(s, e), f);
      case Discarded(f) => FeedbackKeepsInv(s, Dispatch(s, e), f);
    }
  }

  // What an event does to the frame-callback bookkeeping.
  ghost predicate CallbackStep(s: State, s': State) {
    && s'.env.commits == s.env.commits && s'.win.handedIndex == s.win.handedIndex
    && (s.win.closed ==> s'.win.closed)
    && s'.env.frameDones >= s.env.frameDones
    && (|| (s'.win.frameDue == s.win.frameDue && s'.win.frameCallback == s.win.frameCallback
            && s'.env.callbackCommitted == s.env.callbackCommitted)
        || (s'.win.frameDue && s.env.callbackCommitted))
  }

  lemma HappenCallbackStep(s: State, h: Happening)
    ensures CallbackStep(s, Happen(s, h))
  {
    if h.Wayland? {
      match h.event
      case FrameDone =>
      case ToplevelConfigure(_, _) =>
      case SurfaceConfigure =>
      case Close =>
      case Presented(_, _, _) =>
      case Discarded(_) =>
    }
  }

  lemma FrameDoneKeepsInv(s: State)
    requires Inv(s) && Deliverable(s, FrameDone)
    ensures Inv(Dispatch(s, FrameDone))
  {
    var s' := Dispatch(s, FrameDone);
    RingCarries(s, s');
    assert Owns(s, Callback(s.win.frameCallback.value));
    assert forall r :: Owns(s', r) <==> Owns(s, r) && r != Callback(s.win.frameCallback.value);
    HeldCarries(s, s');
  }

  // Only the flags and the size request differ.
  lemma FlagsKeepInv(s: State, s': State)
    requires Inv(s) && s'.env.(lastConfigure := s.env.lastConfigure) == s.env
    requires s'.win == s.win.(configured := true, closed := s'.win.closed,
                              pendingWidth := s'.win.pendingWidth, pendingHeight := s'.win.pendingHeight,
                              resizePending := s'.win.resizePending)
    requires s.win.closed ==> s'.win.closed
    requires PendingOk(s')
    requires !s'.win.resizePending && s'.env.lastConfigure.Some? ==>
               s'.env.lastConfigure.value == (s.win.width, s.win.height)
    ensures Inv(s')
  {
    RingCarries(s, s');
    SameOwnership(s, s');
  }

  lemma ConfigureKeepsInv(s: State, w: int, h: int)
    requires Inv(s)
    ensures Inv(Configure(s, w, h))
  {
    hide RingOk, OwnershipOk, FeedbackOk, PacingOk;
    FlagsKeepInv(s, Configure(s, w, h));
  }

  lemma AnsweredHistory(s: State, s': State, f: nat)
    requires FeedbackHistoryOk(s)
    requires s'.win == s.win.(stats := s'.win.stats, frames := ForgetFeedback(s.win.frames, f))
    requires s'.env == DestroyFeedback(s.env, f)
    ensures FeedbackHistoryOk(s')
  {
    hide SlotOf;
    ForgetFeedbackEffect(s.win.frames, f);
    var N := |s.win.frames|;
    forall g | g in s'.env.liveFeedbacks
      ensures g < s'.env.feedbacks
      ensures g + N < |s.env.commits| || s'.win.frames[SlotOf(g, N)].presentFeedback == Some(g)
    {
      assert g in s.env.liveFeedbacks && g != f;
    }
  }

  lemma FeedbackCounts(s: State, s': State, f: nat)
    requires FeedbackOk(s) && f in s.env.liveFeedbacks
    requires s'.win == s.win.(stats := s'.win.stats, frames := ForgetFeedback(s.win.frames, f))
    requires s'.env == DestroyFeedback(s.env, f)
    requires s'.win.stats.presented + s'.win.stats.discarded == s.win.stats.presented + s.win.stats.discarded + 1
    ensures FeedbackOk(s')
  {
    hide FeedbackHistoryOk;
    AnsweredHistory(s, s', f);
    ForgetFeedbackEffect(s.win.frames, f);
  }

  lemma FeedbackKeepsInv(s: State, s': State, f: nat)
    requires Inv(s) && f in s.env.liveFeedbacks
    requires s'.win == s.win.(stats := s'.win.stats, frames := ForgetFeedback(s.win.frames, f))
    requires s'.env == DestroyFeedback(s.env, f)
    requires s'.win.stats.presented + s'.win.stats.discarded == s.win.stats.presented + s.win.stats.discarded + 1
    ensures Inv(s')
  {
    hide RingOk, OwnershipOk, FeedbackOk, PacingOk, SizesOk, SameRing;
    AnswerKeepsRest(s, s', f);
    FeedbackCounts(s, s', f);
    RingCarries(s, s');
    SameOwnership(s, s');
  }

  lemma AnswerKeepsRest(s: State, s': State, f: nat)
    requires PacingOk(s) && SizesOk(s)
    requires s'.win == s.win.(stats := s'.win.stats, frames := ForgetFeedback(s.win.frames, f))
    requires s'.env == DestroyFeedback(s.env, f)
    ensures SameRing(s, s') && PacingOk(s') && SizesOk(s')
  {
    hide ForgetFeedback;
  }

  lemma HappenKeepsInv(s: State, h: Happening)
    requires Inv(s)
    ensures Inv(Happen(s, h))
  {
    match h
    case Wayland(e) => DispatchKeepsInv(s, e);
    case Async(k) => KernelKeepsInv(s, k);
  }

  lemma {:induction false} HappenAllKeepsInv(s: State, hs: seq<Happening>)
    requires Inv(s)
    ensures Inv(HappenAll(s, hs))
    ensures Settled(s) ==> Settled(HappenAll(s, hs))
    ensures Paid(s) ==> Paid(HappenAll(s, hs))
    ensures Armed(s) ==> Armed(HappenAll(s, hs))
    decreases |hs|
  {
    hide Happen, Inv;
    if hs != [] {
      HappenKeepsInv(s, hs[0]);
      HappenCallbackStep(s, hs[0]);
      HappenAllKeepsInv(Happen(s, hs[0]), hs[1..]);
    }
  }
}
