/** The window implementation as the source writes it - fields updated in place, loops over the
    slot vectors - proved equal, call by call, to the ring's transition functions. */
module Window {
  import opened Prelude
  import opened Ring
  import opened RingInvariant
  import opened RingCommit
  import opened RingRuns
  import opened RingTheorems
  import opened RingTeardown
  import opened RingShutdown
  import opened RingPresents
  import opened RingWaits
  import opened Stats

  // ---- one more turn of a loop, on the specification side ----

  lemma ForgetFeedbackTurn(frames: seq<FrameSlot>, i: nat, f: nat)
    requires i < |frames| && (forall j | 0 <= j < i :: frames[j].presentFeedback != Some(f))
    ensures frames[i].presentFeedback == Some(f) ==>
              ForgetFeedback(frames, f) == frames[i := frames[i].(presentFeedback := None)]
    decreases i
  {
    if i > 0 {
      ForgetFeedbackTurn(frames[1..], i - 1, f);
    }
  }

  lemma {:induction false} ForgetFeedbackAbsent(frames: seq<FrameSlot>, f: nat)
    requires forall j | 0 <= j < |frames| :: frames[j].presentFeedback != Some(f)
    ensures ForgetFeedback(frames, f) == frames
    decreases |frames|
  {
    if frames != [] {
      ForgetFeedbackAbsent(frames[1..], f);
      assert frames == [frames[0]] + frames[1..];
    }
  }

  lemma MemoryTurn(base: nat, i: nat)
    ensures Memory(base, i + 1) == Memory(base, i) + {Image(base + i), Buffer(base + i), Fd(base + i)}
  {
  }

  // A slot without its memory, as handle_resize fills it before creating the new images.
  ghost function Bare(o: FrameSlot): FrameSlot {
    o.(image := None, buffer := None, dmaBufFd := None, released := false, presentFeedback := None)
  }

  lemma BareIs(o: FrameSlot)
    ensures Bare(o) == EMPTY_SLOT.(acquireSyncobj := o.acquireSyncobj, releaseSyncobj := o.releaseSyncobj,
                                   acquireTimeline := o.acquireTimeline, releaseTimeline := o.releaseTimeline,
                                   counter := o.counter, renderFence := o.renderFence)
    ensures RetiredCopy(o) == EMPTY_SLOT.(image := o.image, buffer := o.buffer, dmaBufFd := o.dmaBufFd,
                                          releaseSyncobj := o.releaseSyncobj, counter := o.counter)
  {
  }

  ghost function AllBare(frames: seq<FrameSlot>): (r: seq<FrameSlot>)
    ensures |r| == |frames|
  {
    seq(|frames|, i requires 0 <= i < |frames| => Bare(frames[i]))
  }

  // handle_resize up to the creation of the new images.
  ghost function Cleared(s: State): State {
    State(s.win.(retired := s.win.retired + AllRetired(s.win.frames),
                 frames := AllBare(s.win.frames),
                 width := s.win.pendingWidth, height := s.win.pendingHeight, resizePending := false,
                 handedIndex := None),
          DropFeedbacks(WaitIdle(s.env), s.win.frames))
  }

  // create_dmabuf_resources on every slot.
  ghost function WithImages(frames: seq<FrameSlot>, base: nat): (r: seq<FrameSlot>)
    ensures |r| == |frames|
  {
    seq(|frames|, k requires 0 <= k < |frames| =>
      frames[k].(image := Some(base + k), buffer := Some(base + k), dmaBufFd := Some(base + k)))
  }

  // handle_resize in the order the method performs it.
  lemma ResizeInSteps(s: State)
    ensures var c := Cleared(s);
            var extent := (c.win.width, c.win.height);
            var created := CreateMemory(c.env, |c.win.frames|, extent);
            Ring.HandleResize(s) == State(c.win.(frames := WithImages(c.win.frames, |c.env.extents|)),
                                          created.(announced := created.announced + [extent]))
  {
    hide DropFeedbacks, CreateMemory, AllRetired, WaitIdle;
    IdleKeepsImages(s.env);
    assert WithImages(Cleared(s).win.frames, |s.env.extents|) == AllRenewed(s.win.frames, |s.env.extents|);
  }

  lemma IdleKeepsImages(env: Env)
    ensures WaitIdle(env).extents == env.extents && WaitIdle(env).announced == env.announced
  {
  }

  lemma CreateMemoryTurn(env: Env, i: nat, extent: (nat, nat))
    ensures var e, n := CreateMemory(env, i, extent), |env.extents| + i;
            && |e.extents| == n
            && CreateMemory(env, i + 1, extent)
               == e.(extents := e.extents + [extent], live := e.live + {Image(n), Buffer(n), Fd(n)})
  {
    hide Memory;
    MemoryTurn(|env.extents|, i);
  }

  lemma CreateNothing(env: Env, extent: (nat, nat))
    ensures CreateMemory(env, 0, extent) == env
  {
  }

  lemma SyncTurn(i: nat)
    ensures SyncHandles(i + 1)
            == SyncHandles(i) + {Syncobj(2 * i), Syncobj(2 * i + 1), Timeline(2 * i), Timeline(2 * i + 1), Fence(i)}
  {
  }

  // The ring before its slots have any handles.
  ghost function Sized(s: State, c: Config): State {
    s.(win := s.win.(width := if s.win.pendingWidth != 0 then s.win.pendingWidth else c.width,
                     height := if s.win.pendingHeight != 0 then s.win.pendingHeight else c.height,
                     collectStats := c.collectStats,
                     frames := seq(c.bufferCount, _ => EMPTY_SLOT)))
  }

  ghost function AllSynced(frames: seq<FrameSlot>): (r: seq<FrameSlot>)
    ensures |r| == |frames|
  {
    seq(|frames|, k requires 0 <= k < |frames| => Synced(frames[k], k))
  }

  // The constructor's slots in the order the method creates them.
  lemma CreatedInSteps(s: State, c: Config)
    ensures var z := Sized(s, c);
            var created := CreateMemory(z.env, |z.win.frames|, (z.win.width, z.win.height));
            && z.env == s.env
            && CreateFramebuffers(s, c)
               == State(z.win.(frames := AllSynced(WithImages(z.win.frames, 0))),
                        created.(fences := seq(|z.win.frames|, _ => Idle),
                                 live := created.live + SyncHandles(|z.win.frames|)))
  {
    hide CreateMemory, SyncHandles;
    assert AllSynced(WithImages(Sized(s, c).win.frames, 0)) == CreateFramebuffers(s, c).win.frames;
  }

  function IfSome(id: Option<nat>, r: Resource): seq<Resource> {
    if id.Some? then [r] else []
  }

  lemma SlotInSteps(env: Env, fb: FrameSlot)
    ensures var e1 := DestroyEach(env, IfSome(fb.buffer, Buffer(fb.buffer.GetOr(0))));
            var e2 := DestroyEach(e1, IfSome(fb.acquireTimeline, Timeline(fb.acquireTimeline.GetOr(0))));
            var e3 := DestroyEach(e2, IfSome(fb.releaseTimeline, Timeline(fb.releaseTimeline.GetOr(0))));
            var e4 := DestroyEach(e3, IfSome(fb.acquireSyncobj, Syncobj(fb.acquireSyncobj.GetOr(0))));
            var e5 := DestroyEach(e4, IfSome(fb.releaseSyncobj, Syncobj(fb.releaseSyncobj.GetOr(0))));
            var e6 := DestroyEach(e5, IfSome(fb.dmaBufFd, Fd(fb.dmaBufFd.GetOr(0))));
            var e7 := DestroyEach(e6, IfSome(fb.renderFence, Fence(fb.renderFence.GetOr(0))));
            DestroyEach(e7, IfSome(fb.image, Image(fb.image.GetOr(0)))) == DestroyEach(env, SlotHandles(fb))
  {
    hide DestroyEach;
    var s1 := IfSome(fb.buffer, Buffer(fb.buffer.GetOr(0)));
    var s2 := s1 + IfSome(fb.acquireTimeline, Timeline(fb.acquireTimeline.GetOr(0)));
    var s3 := s2 + IfSome(fb.releaseTimeline, Timeline(fb.releaseTimeline.GetOr(0)));
    var s4 := s3 + IfSome(fb.acquireSyncobj, Syncobj(fb.acquireSyncobj.GetOr(0)));
    var s5 := s4 + IfSome(fb.releaseSyncobj, Syncobj(fb.releaseSyncobj.GetOr(0)));
    var s6 := s5 + IfSome(fb.dmaBufFd, Fd(fb.dmaBufFd.GetOr(0)));
    var s7 := s6 + IfSome(fb.renderFence, Fence(fb.renderFence.GetOr(0)));
    DestroyEachConcat(env, s1, IfSome(fb.acquireTimeline, Timeline(fb.acquireTimeline.GetOr(0))));
    DestroyEachConcat(env, s2, IfSome(fb.releaseTimeline, Timeline(fb.releaseTimeline.GetOr(0))));
    DestroyEachConcat(env, s3, IfSome(fb.acquireSyncobj, Syncobj(fb.acquireSyncobj.GetOr(0))));
    DestroyEachConcat(env, s4, IfSome(fb.releaseSyncobj, Syncobj(fb.releaseSyncobj.GetOr(0))));
    DestroyEachConcat(env, s5, IfSome(fb.dmaBufFd, Fd(fb.dmaBufFd.GetOr(0))));
    DestroyEachConcat(env, s6, IfSome(fb.renderFence, Fence(fb.renderFence.GetOr(0))));
    DestroyEachConcat(env, s7, IfSome(fb.image, Image(fb.image.GetOr(0))));
  }

  lemma NoSyncHandles()
    ensures SyncHandles(0) == {}
  {
  }

  // A slot with the sync objects, timelines and fence of slot k.
  ghost function Synced(fb: FrameSlot, k: nat): FrameSlot {
    fb.(acquireSyncobj := Some(2 * k), acquireTimeline := Some(2 * k),
        releaseSyncobj := Some(2 * k + 1), releaseTimeline := Some(2 * k + 1), renderFence := Some(k))
  }

  lemma DestroyOne(env: Env, r: Resource)
    ensures DestroyEach(env, [r]) == Destroy(env, r) && DestroyEach(env, []) == env
  {
    hide Destroy;
    assert [r][1..] == [];
    assert DestroyEach(Destroy(env, r), []) == Destroy(env, r);
  }

  lemma {:induction false} DestroyEachConcat(env: Env, a: seq<Resource>, b: seq<Resource>)
    ensures DestroyEach(env, a + b) == DestroyEach(DestroyEach(env, a), b)
    decreases |a|
  {
    hide Destroy;
    if a == [] {
      assert a + b == b;
    } else {
      assert (a + b)[1..] == a[1..] + b;
      DestroyEachConcat(Destroy(env, a[0]), a[1..], b);
    }
  }

  // What holds between calls, and after any event that arrives there.
  ghost predicate Steady(s: State) {
    Inv(s) && Settled(s) && RingShape(s)
  }

  lemma EventKeepsSteady(s: State, h: Happening)
    ensures Steady(s) ==> Steady(Happen(s, h))
  {
    hide Inv, Happen;
    if Steady(s) {
      HappenKeepsInv(s, h);
      HappenCallbackStep(s, h);
      HappenUntouched(s, h);
    }
  }

  class Impl {
    var configured: bool
    var closed: bool
    var frameDue: bool
    var resizePending: bool
    var width: nat
    var height: nat
    var pendingWidth: nat
    var pendingHeight: nat
    var frames: seq<FrameSlot>
    var retired: seq<FrameSlot>
    var nextFrame: nat
    var handedIndex: Option<nat>
    var presentedOnce: bool
    var frameCallback: Option<nat>
    var stats: StatsAccum
    var collectStats: bool

    // The compositor, the GPU, the kernel and the handles that exist.
    var env: Env

    ghost function View(): State
      reads this
    {
      State(Win(configured, closed, frameDue, resizePending, width, height, pendingWidth, pendingHeight,
                frames, retired, nextFrame, handedIndex, presentedOnce, frameCallback, stats, collectStats),
            env)
    }

    // A window between calls.
    ghost predicate Valid()
      reads this
    {
      Steady(View())
    }

    constructor ()
      ensures View() == BLANK
    {
      configured, closed, frameDue, resizePending := false, false, false, false;
      width, height, pendingWidth, pendingHeight := 0, 0, 0, 0;
      frames, retired, nextFrame, handedIndex := [], [], 0, None;
      presentedOnce, frameCallback, stats, collectStats := false, None, FRESH, false;
      env := BLANK.env;
    }

    // ---- listeners ----

    method OnFrameDone()
      requires Deliverable(View(), FrameDone)
      modifies this
      ensures View() == Dispatch(old(View()), FrameDone)
      ensures old(Valid()) ==> Valid()
    {
      hide Steady;
      EventKeepsSteady(View(), Wayland(FrameDone));
      env := Free(env, Callback(frameCallback.value)).(callbackCommitted := false, frameDones := env.frameDones + 1);
      frameCallback := None;
      frameDue := true;
    }

    method OnToplevelConfigure(w: int, h: int)
      modifies this
      ensures View() == Dispatch(old(View()), ToplevelConfigure(w, h))
      ensures if w > 0 && h > 0 then (pendingWidth, pendingHeight) == (w, h) && env.lastConfigure == Some((w, h))
              else View() == old(View())
      ensures resizePending <==>
                old(resizePending) || (w > 0 && h > 0 && configured && (w, h) != (width, height))
      ensures old(Valid()) ==> Valid()
    {
      hide Steady;
      EventKeepsSteady(View(), Wayland(ToplevelConfigure(w, h)));
      if w <= 0 || h <= 0 {
        return;
      }
      env := env.(lastConfigure := Some((w, h)));
      pendingWidth := w;
      pendingHeight := h;
      if configured && (pendingWidth != width || pendingHeight != height) {
        resizePending := true;
      }
    }

    method OnPresented(pfb: nat, t: Timestamp, refresh: nat)
      requires Deliverable(View(), Presented(pfb, t, refresh))
      modifies this
      ensures View() == Dispatch(old(View()), Presented(pfb, t, refresh))
      ensures old(Valid()) ==> Valid()
    {
      hide Steady;
      EventKeepsSteady(View(), Wayland(Presented(pfb, t, refresh)));
      RecordPresented(TvNs(t), refresh);
      ForgetPresentFeedback(pfb);
      env := DestroyFeedback(env, pfb);
    }

    method RecordPresented(tvNs: int, refresh: nat)
      modifies this`stats
      ensures stats == Accumulate(old(stats), tvNs, refresh)
    {
      if stats.lastTvNs != 0 {
        var gap := tvNs - stats.lastTvNs;
        if stats.minGapNs == 0 || gap < stats.minGapNs {
          stats := stats.(minGapNs := gap);
        }
        if gap > stats.maxGapNs {
          stats := stats.(maxGapNs := gap);
        }
        if refresh > 0 && gap > refresh * 3 / 2 {
          stats := stats.(late := stats.late + 1);
        }
      }
      stats := stats.(lastTvNs := tvNs);
      stats := stats.(presented := stats.presented + 1);
    }

    method OnDiscarded(pfb: nat)
      requires Deliverable(View(), Discarded(pfb))
      modifies this
      ensures View() == Dispatch(old(View()), Discarded(pfb))
      ensures old(Valid()) ==> Valid()
    {
      hide Steady;
      EventKeepsSteady(View(), Wayland(Discarded(pfb)));
      stats := stats.(discarded := stats.discarded + 1);
      ForgetPresentFeedback(pfb);
      env := DestroyFeedback(env, pfb);
    }

    method ForgetPresentFeedback(pfb: nat)
      modifies this`frames
      ensures frames == ForgetFeedback(old(frames), pfb)
    {
      var i := 0;
      while i < |frames|
        invariant i <= |frames|
        invariant frames == old(frames)
        invariant forall j | 0 <= j < i :: frames[j].presentFeedback != Some(pfb)
      {
        ForgetFeedbackTurn(frames, i, pfb);
        if frames[i].presentFeedback == Some(pfb) {
          frames := frames[i := frames[i].(presentFeedback := None)];
          return;
        }
        i := i + 1;
      }
      ForgetFeedbackAbsent(frames, pfb);
    }

    // ---- dispatching ----

    method Deliver(h: Happening)
      modifies this
      ensures View() == Happen(old(View()), h)
      ensures old(Valid()) ==> Valid()
    {
      hide Steady;
      EventKeepsSteady(View(), h);
      match h
      case Async(k) => env := Kernel(env, k);
      case Wayland(FrameDone) =>
        if frameCallback.Some? && env.callbackCommitted {
          OnFrameDone();
        }
      case Wayland(ToplevelConfigure(w, h)) => OnToplevelConfigure(w, h);
      case Wayland(SurfaceConfigure) => configured := true;
      case Wayland(Close) => closed := true;
      case Wayland(Presented(f, t, refresh)) =>
        if f in env.liveFeedbacks {
          OnPresented(f, t, refresh);
        }
      case Wayland(Discarded(f)) =>
        if f in env.liveFeedbacks {
          OnDiscarded(f);
        }
    }

    // poll_and_dispatch and drain_events, as the events they deliver.
    method DispatchPending(hs: seq<Happening>)
      modifies this
      ensures View() == HappenAll(old(View()), hs)
      ensures old(Valid()) ==> Valid()
    {
      hide Happen, Steady;
      var i := 0;
      while i < |hs|
        invariant i <= |hs|
        invariant old(Valid()) ==> Valid()
        invariant HappenAll(View(), hs[i..]) == HappenAll(old(View()), hs)
      {
        Deliver(hs[i]);
        assert hs[i..][1..] == hs[i + 1..];
        i := i + 1;
      }
    }

    method WaitReleasePoint(syncobj: Option<nat>, point: nat, p: Probe) returns (signalled: bool)
      modifies this`env
      ensures (View(), signalled) == Ring.WaitReleasePoint(old(View()), syncobj, point, p)
    {
      var i := 0;
      while i < |p.kernel|
        invariant i <= |p.kernel|
        invariant KernelAll(env, p.kernel[i..]) == KernelAll(old(env), p.kernel)
      {
        env := Kernel(env, p.kernel[i]);
        assert p.kernel[i..][1..] == p.kernel[i + 1..];
        i := i + 1;
      }
      signalled := ReleaseSignalled(env, syncobj, point) && !p.timesOut;
    }

    // ---- reap_retired ----

    method DestroyIf(id: Option<nat>, r: Resource)
      modifies this`env
      ensures env == DestroyEach(old(env), IfSome(id, r))
    {
      DestroyOne(env, r);
      if id.Some? {
        env := Destroy(env, r);
      }
    }

    method DestroyRetired(fb: FrameSlot)
      modifies this`env
      ensures env == DestroyEach(old(env), RetiredHandles(fb))
    {
      hide DestroyEach;
      ghost var b := if fb.buffer.Some? then [Buffer(fb.buffer.value)] else [];
      ghost var i := if fb.image.Some? then [Image(fb.image.value)] else [];
      ghost var f := if fb.dmaBufFd.Some? then [Fd(fb.dmaBufFd.value)] else [];
      DestroyEachConcat(env, b, i);
      DestroyEachConcat(env, b + i, f);
      DestroyIf(fb.buffer, Buffer(fb.buffer.GetOr(0)));
      DestroyIf(fb.image, Image(fb.image.GetOr(0)));
      DestroyIf(fb.dmaBufFd, Fd(fb.dmaBufFd.GetOr(0)));
    }

    // Erases in place while iterating.
    method ReapRetired(probes: seq<Probe>)
      modifies this
      ensures View() == ReapFrom(old(View()), 0, probes)
    {
      hide Destroy, KernelAll, ReleaseSignalled, DestroyEach, RetiredHandles;
      var it, rest := 0, probes;
      while it < |retired|
        invariant ReapFrom(View(), it, rest) == ReapFrom(old(View()), 0, probes)
        decreases |retired| - it
      {
        var fb := retired[it];
        var ready := true;
        if !fb.released && fb.counter > 0 {
          ready := WaitReleasePoint(fb.releaseSyncobj, fb.counter, ProbeOf(rest));
        }
        if !ready {
          it := it + 1;
        } else {
          DestroyRetired(fb);
          retired := retired[..it] + retired[it + 1..];
        }
        rest := Rest(rest);
      }
    }

    // ---- handle_resize ----

    // New memory for every slot, numbered upwards from the next free handle.
    method CreateDmabufResources()
      modifies this`frames, this`env
      ensures frames == WithImages(old(frames), |old(env).extents|)
      ensures env == CreateMemory(old(env), |frames|, (width, height))
    {
      hide CreateMemory;
      ghost var base := |env.extents|;
      CreateNothing(env, (width, height));
      var i := 0;
      while i < |frames|
        invariant i <= |frames| == |old(frames)|
        invariant forall k | 0 <= k < i :: frames[k] == old(frames)[k].(
                    image := Some(base + k), buffer := Some(base + k), dmaBufFd := Some(base + k))
        invariant forall k | i <= k < |frames| :: frames[k] == old(frames)[k]
        invariant env == CreateMemory(old(env), i, (width, height))
      {
        CreateMemoryTurn(old(env), i, (width, height));
        var n := |env.extents|;
        frames := frames[i := frames[i].(image := Some(n), buffer := Some(n), dmaBufFd := Some(n))];
        env := env.(extents := env.extents + [(width, height)], live := env.live + {Image(n), Buffer(n), Fd(n)});
        i := i + 1;
      }
    }

    // The slot loop of handle_resize: every slot's memory moves to the retired list, and its sync
    // objects, fence and counter to a fresh slot.
    method RetireSlots() returns (renewed: seq<FrameSlot>)
      modifies this`frames, this`retired, this`env
      ensures retired == old(retired) + AllRetired(old(frames))
      ensures env == DropFeedbacks(WaitIdle(old(env)), old(frames))
      ensures renewed == AllBare(old(frames))
    {
      hide Bare, RetiredCopy, WaitIdle;
      ghost var was := frames;
      env := WaitIdle(env);
      renewed := [];
      var i := 0;
      while i < |frames|
        invariant i <= |frames| == |was| && |renewed| == i
        invariant forall k | i <= k < |was| :: frames[k] == was[k]
        invariant forall k | 0 <= k < i :: renewed[k] == Bare(was[k])
        invariant retired == old(retired) + AllRetired(was)[..i]
        invariant DropFeedbacks(env, was[i..]) == DropFeedbacks(WaitIdle(old(env)), was)
      {
        var o := frames[i];
        BareIs(o);
        renewed := renewed + [EMPTY_SLOT.(acquireSyncobj := o.acquireSyncobj, releaseSyncobj := o.releaseSyncobj,
                                          acquireTimeline := o.acquireTimeline, releaseTimeline := o.releaseTimeline,
                                          counter := o.counter, renderFence := o.renderFence)];
        retired := retired + [EMPTY_SLOT.(image := o.image, buffer := o.buffer, dmaBufFd := o.dmaBufFd,
                                          releaseSyncobj := o.releaseSyncobj, counter := o.counter)];
        if o.presentFeedback.Some? {
          env := DestroyFeedback(env, o.presentFeedback.value).(resizeDestroyed := env.resizeDestroyed + 1);
        }
        frames := frames[i := o.(presentFeedback := None, image := None, dmaBufFd := None, buffer := None,
                                 renderFence := None)];
        assert was[i..][1..] == was[i + 1..];
        i := i + 1;
      }
    }

    method RetireGeneration()
      modifies this
      ensures View() == Cleared(old(View()))
    {
      hide DropFeedbacks, AllRetired, AllBare, WaitIdle;
      var renewed := RetireSlots();
      width := pendingWidth;
      height := pendingHeight;
      resizePending := false;
      frames := renewed;
      handedIndex := None;
    }

    method HandleResize()
      modifies this
      ensures View() == Ring.HandleResize(old(View()))
    {
      hide Ring.HandleResize, Cleared, CreateMemory, WithImages;
      ResizeInSteps(View());
      RetireGeneration();
      CreateDmabufResources();
      env := env.(announced := env.announced + [(width, height)]);
    }

    // ---- next_frame ----

    method ArmFrame()
      modifies this`frameCallback, this`env
      ensures View() == Ring.ArmFrame(old(View()))
    {
      var n := env.callbacks;
      frameCallback := Some(n);
      env := env.(callbacks := n + 1, live := env.live + {Callback(n)}, callbackCommitted := false);
    }

    /** wait_frame. What it hands out is safe to draw into. */
    method NextFrame(sc: Script) returns (o: Outcome)
      requires Valid()
      modifies this
      ensures (View(), o) == Ring.NextFrame(old(View()), sc)
      ensures Inv(View()) && (!o.AwaitingRelease? ==> Valid())
      ensures o.Handed? ==> SafeToDraw(View(), o.frame)
      ensures o.AwaitingRelease? ==> !closed
    {
      o := WaitForSlot(sc);
      NextFrameKeepsInv(old(View()), sc);
      if o.Handed? {
        HandedFree(View(), o.frame);
      } else if o.AwaitingRelease? {
        NeverWaitsClosed(old(View()), sc);
      }
    }

    method WaitForSlot(sc: Script) returns (o: Outcome)
      requires RingShape(View())
      modifies this
      ensures (View(), o) == Ring.NextFrame(old(View()), sc)
    {
      hide ReapFrom, PollLoop, Granted, ReleaseLoop;
      if retired != [] {
        ReapRetired(sc.reap);
      }
      ReapFromFrame(old(View()), 0, sc.reap);
      PollLoopUntouched(View(), sc.polls);
      if presentedOnce {
        var polled := PollForFrame(sc.polls);
        if !polled {
          return AwaitingFrame;
        }
        if closed {
          return WindowClosed;
        }
      }
      Grant();
      o := AwaitSlot(sc.attempts);
    }

    // Resize if one is pending, take the frame callback, and arm the next one.
    method Grant()
      requires RingShape(View())
      modifies this
      ensures View() == Granted(old(View())) && RingShape(View())
    {
      hide DropFeedbacks, Memory, AllRetired, UpTo;
      if resizePending {
        HandleResize();
      }
      frameDue := false;
      if frameCallback.None? && !closed {
        ArmFrame();
      }
    }

    // False: the events ran out and the loop is still waiting.
    method PollForFrame(polls: seq<seq<Happening>>) returns (done: bool)
      modifies this
      ensures View() == PollLoop(old(View()), polls)
      ensures done == (frameDue || closed)
    {
      hide HappenAll;
      var i := 0;
      while !frameDue && !closed
        invariant i <= |polls|
        invariant PollLoop(View(), polls[i..]) == PollLoop(old(View()), polls)
        decreases |polls| - i
      {
        if i == |polls| {
          return false;
        }
        DispatchPending(polls[i]);
        assert polls[i..][1..] == polls[i + 1..];
        i := i + 1;
      }
      done := true;
    }

    method AwaitSlot(attempts: seq<Attempt>) returns (o: Outcome)
      requires RingShape(View())
      modifies this
      ensures (View(), o) == ReleaseLoop(old(View()), attempts)
      ensures o.AwaitingRelease? && !old(closed) ==> !closed
    {
      hide HappenAll, KernelAll, ReleaseSignalled;
      WaitsWithCounter(View(), attempts);
      var i := 0;
      while frames[nextFrame].counter > 0
        invariant i <= |attempts| && RingShape(View())
        invariant ReleaseLoop(View(), attempts[i..]) == ReleaseLoop(old(View()), attempts)
        decreases |attempts| - i
      {
        if i == |attempts| {
          return AwaitingRelease;
        }
        var fb := frames[nextFrame];
        var ready := WaitReleasePoint(fb.releaseSyncobj, fb.counter, attempts[i].probe);
        if ready {
          break;
        }
        HappenAllUntouched(View(), attempts[i].drained);
        DispatchPending(attempts[i].drained);
        assert attempts[i..][1..] == attempts[i + 1..];
        if closed {
          return WindowClosed;
        }
        i := i + 1;
      }
      var fb := frames[nextFrame];
      handedIndex := Some(nextFrame);
      o := Handed(Frame(nextFrame, fb.image, fb.dmaBufFd, fb.renderFence));
    }

    // ---- commit_frame ----

    /** present. A refused frame changes nothing. */
    method CommitFrame(index: nat) returns (e: Option<PresentError>)
      requires Valid()
      modifies this
      ensures (View(), e) == Ring.CommitFrame(old(View()), index)
      ensures Valid()
      ensures e.Some? ==> View() == old(View())
      ensures e.None? <==> old(handedIndex) == Some(index) && Submitted(old(View()), index)
      ensures e == Some(StaleFrame) <==> old(handedIndex) != Some(index)
    {
      PresentAcceptedIff(View(), index);
      e := Commit(index);
      if e.None? {
        CommitKeepsInv(old(View()), index);
        InvShape(View());
      }
    }

    method AttachFeedback(index: nat)
      requires index < |frames|
      modifies this`frames, this`env
      ensures View() == Ring.AttachFeedback(old(View()), index)
    {
      if collectStats {
        frames := frames[index := frames[index].(presentFeedback := Some(env.feedbacks))];
        env := env.(feedbacks := env.feedbacks + 1, liveFeedbacks := env.liveFeedbacks + {env.feedbacks});
      }
    }

    // The surface commit, and the bookkeeping after it.
    method Attach(index: nat, point: nat)
      requires index < |frames|
      modifies this
      ensures View() == RecordCommit(old(View()), index, point)
    {
      var fb := frames[index];
      env := env.(commits := env.commits
                    + [Ring.Commit(fb.acquireTimeline, point, fb.releaseTimeline, point, fb.buffer)],
                  callbackCommitted := frameCallback.Some?);
      frames := frames[index := fb.(counter := point)];
      handedIndex := None;
      presentedOnce := true;
      nextFrame := (nextFrame + 1) % |frames|;
    }

    method Commit(index: nat) returns (e: Option<PresentError>)
      requires RingShape(View())
      modifies this
      ensures (View(), e) == Ring.CommitFrame(old(View()), index)
    {
      hide FenceOf, SetFence, Ring.AttachFeedback, RecordCommit;
      if handedIndex != Some(index) || index >= |frames| {
        return Some(StaleFrame);
      }
      var fb := frames[index];
      var point := fb.counter + 1;
      var payload := FenceOf(env, fb.renderFence);
      if payload.Idle? {
        return Some(NoSyncFd);
      }
      env := env.(acquire := env.acquire[(fb.acquireSyncobj, point) := payload.job]);
      env := SetFence(env, fb.renderFence, Idle);
      AttachFeedback(index);
      Attach(index, point);
      return None;
    }

    // ---- construction ----

    /** The constructor's own work. False: closed or still waiting before the first configure. */
    method Initialise(c: Config, batches: seq<seq<Happening>>) returns (ok: bool)
      requires View() == BLANK
      modifies this
      ensures ok <==> Construct(c, batches).Some?
      ensures ok ==> View() == Construct(c, batches).value
      ensures ok && Usable(c) ==> Valid()
    {
      hide HappenAll, CreateFramebuffers, Inv, Settled, RingShape;
      var i := 0;
      while !configured && !closed && i < |batches|
        invariant i <= |batches|
        invariant AwaitConfigure(View(), batches[i..]) == AwaitConfigure(BLANK, batches)
      {
        DispatchPending(batches[i]);
        assert batches[i..][1..] == batches[i + 1..];
        i := i + 1;
      }
      if !configured {
        return false;
      }
      AwaitBooting(BLANK, batches);
      if Usable(c) {
        FirstSlots(View(), c);
      }
      CreateSlots(c);
      return true;
    }

    method SizeRing(c: Config)
      modifies this
      ensures View() == Sized(old(View()), c)
    {
      width := if pendingWidth != 0 then pendingWidth else c.width;
      height := if pendingHeight != 0 then pendingHeight else c.height;
      collectStats := c.collectStats;
      frames := seq(c.bufferCount, _ => EMPTY_SLOT);
    }

    method CreateSlots(c: Config)
      requires env.fences == [] && env.extents == []
      modifies this
      ensures View() == CreateFramebuffers(old(View()), c)
    {
      hide CreateFramebuffers, CreateMemory, SyncHandles, Sized, WithImages, AllSynced;
      CreatedInSteps(View(), c);
      SizeRing(c);
      CreateDmabufResources();
      CreateSyncObjects();
    }

    // Two sync objects, their Wayland timelines and a fence for every slot.
    method CreateSyncObjects()
      requires env.fences == []
      modifies this`frames, this`env
      ensures frames == AllSynced(old(frames))
      ensures env == old(env).(fences := seq(|frames|, _ => Idle), live := old(env).live + SyncHandles(|frames|))
    {
      hide SyncHandles;
      NoSyncHandles();
      var i := 0;
      while i < |frames|
        invariant i <= |frames| == |old(frames)|
        invariant forall k | 0 <= k < i :: frames[k] == Synced(old(frames)[k], k)
        invariant forall k | i <= k < |frames| :: frames[k] == old(frames)[k]
        invariant env == old(env).(fences := seq(i, _ => Idle), live := old(env).live + SyncHandles(i))
      {
        var acquire, release := 2 * i, 2 * i + 1;
        frames := frames[i := frames[i].(acquireSyncobj := Some(acquire), acquireTimeline := Some(acquire),
                                         releaseSyncobj := Some(release), releaseTimeline := Some(release),
                                         renderFence := Some(i))];
        env := env.(fences := env.fences + [Idle],
                    live := env.live + {Syncobj(acquire), Syncobj(release), Timeline(acquire), Timeline(release),
                                        Fence(i)});
        SyncTurn(i);
        i := i + 1;
      }
    }

    // ---- ~Impl ----

    /** The destructor: frees everything once, except feedback objects no slot refers to. */
    method Destruct()
      requires Inv(View())
      modifies this
      ensures env == Teardown(old(View()))
      ensures env.live == {} && env.doubleFrees == 0
      ensures env.hazards == 3 * (HeldCount(old(env), old(retired)) + HeldCount(old(env), old(frames)))
    {
      hide TearRetired, TearFrames, HeldCount;
      TeardownOf(View());
      TeardownHazards(View());
      env := WaitIdle(env);
      DestroyAllRetired();
      DestroyAllFrames();
      if frameCallback.Some? {
        env := Free(env, Callback(frameCallback.value));
      }
    }

    method DestroyAllRetired()
      modifies this`env
      ensures env == TearRetired(old(env), retired)
    {
      hide DestroyEach, RetiredHandles;
      var i := 0;
      while i < |retired|
        invariant i <= |retired|
        invariant TearRetired(env, retired[i..]) == TearRetired(old(env), retired)
      {
        DestroyRetired(retired[i]);
        assert retired[i..][1..] == retired[i + 1..];
        i := i + 1;
      }
    }

    method DestroyAllFrames()
      modifies this`env, this`frames
      ensures env == TearFrames(old(env), old(frames))
    {
      hide DestroyEach, SlotHandles;
      ghost var was := frames;
      var i := 0;
      while i < |frames|
        invariant i <= |frames| == |was|
        invariant forall k | i <= k < |was| :: frames[k] == was[k]
        invariant TearFrames(env, was[i..]) == TearFrames(old(env), was)
      {
        var fb := frames[i];
        if fb.presentFeedback.Some? {
          env := DestroyFeedback(env, fb.presentFeedback.value);
          frames := frames[i := fb.(presentFeedback := None)];
        }
        DestroySlot(fb);
        assert was[i..][1..] == was[i + 1..];
        i := i + 1;
      }
    }

    method DestroySlot(fb: FrameSlot)
      modifies this`env
      ensures env == DestroyEach(old(env), SlotHandles(fb))
    {
      hide DestroyEach;
      ghost var e0 := env;
      DestroyIf(fb.buffer, Buffer(fb.buffer.GetOr(0)));
      DestroyIf(fb.acquireTimeline, Timeline(fb.acquireTimeline.GetOr(0)));
      DestroyIf(fb.releaseTimeline, Timeline(fb.releaseTimeline.GetOr(0)));
      DestroyIf(fb.acquireSyncobj, Syncobj(fb.acquireSyncobj.GetOr(0)));
      DestroyIf(fb.releaseSyncobj, Syncobj(fb.releaseSyncobj.GetOr(0)));
      DestroyIf(fb.dmaBufFd, Fd(fb.dmaBufFd.GetOr(0)));
      DestroyIf(fb.renderFence, Fence(fb.renderFence.GetOr(0)));
      DestroyIf(fb.image, Image(fb.image.GetOr(0)));
      SlotInSteps(e0, fb);
    }
  }
}
