/** wait_frame step by step: how it begins, and what each further batch of events and each further
    timed wait does to a call that is still blocked. */
module RingWaits {
  import opened Ring
  import opened RingArithmetic
  import opened RingInvariant
  import opened RingRuns
  import opened RingTheorems
  import opened RingOutcomes
  import opened RingEvents

  // ---- the flags, against the bare list of happenings ----

  lemma HappenFlags(s: State, h: Happening)
    ensures var s' := Happen(s, h);
            && (s'.win.closed <==> s.win.closed || h == Wayland(Close))
            && (s'.win.configured <==> s.win.configured || h == Wayland(SurfaceConfigure))
            && (s'.win.frameDue <==> s.win.frameDue || (h == Wayland(FrameDone) && Deliverable(s, FrameDone)))
            && (Deliverable(s', FrameDone) <==> Deliverable(s, FrameDone) && h != Wayland(FrameDone))
  {
    hide ForgetFeedback, AcquireSignalled;
    if h.Wayland? {
      match h.event
      case FrameDone =>
      case ToplevelConfigure(_, _) =>
      case SurfaceConfigure =>
      case Close =>
      case Presented(_, _, _) =>
      case Discarded(_) =>
    }
  }

  /** A close anywhere in a batch closes the window, a surface configure configures it, and a frame
      callback that can come is noticed, whatever surrounds them; nothing else does any of it. */
  lemma {:induction false} FlagsOfBatch(s: State, hs: seq<Happening>)
    ensures var s' := HappenAll(s, hs);
            && (s'.win.closed <==> s.win.closed || Wayland(Close) in hs)
            && (s'.win.configured <==> s.win.configured || Wayland(SurfaceConfigure) in hs)
            && (s'.win.frameDue <==> s.win.frameDue || (Wayland(FrameDone) in hs && Deliverable(s, FrameDone)))
    decreases |hs|
  {
    hide Happen, Deliverable;
    if hs != [] {
      HappenFlags(s, hs[0]);
      FlagsOfBatch(Happen(s, hs[0]), hs[1..]);
      assert hs == [hs[0]] + hs[1..];
    }
  }

  // ---- construction ----

  // The first batch with a surface configure, and no close in an earlier one.
  ghost predicate ConfiguredBy(batches: seq<seq<Happening>>, k: nat) {
    && k < |batches| && Wayland(SurfaceConfigure) in batches[k]
    && forall j | 0 <= j < k :: Wayland(SurfaceConfigure) !in batches[j] && Wayland(Close) !in batches[j]
  }

  lemma {:induction false} ConfiguredIff(s: State, batches: seq<seq<Happening>>)
    requires !s.win.configured && !s.win.closed
    ensures AwaitConfigure(s, batches).win.configured <==> exists k: nat :: ConfiguredBy(batches, k)
    decreases |batches|
  {
    hide HappenAll;
    if batches != [] {
      var s1, rest := HappenAll(s, batches[0]), batches[1..];
      FlagsOfBatch(s, batches[0]);
      if s1.win.configured {
        assert ConfiguredBy(batches, 0);
      } else if !s1.win.closed {
        ConfiguredIff(s1, rest);
        assert forall k: nat :: ConfiguredBy(rest, k) ==> ConfiguredBy(batches, k + 1);
        assert forall k: nat :: k > 0 && ConfiguredBy(batches, k) ==> ConfiguredBy(rest, k - 1);
      }
    }
  }

  /** Construction succeeds if and only if a surface configure comes in a batch before which none
      closed the window. */
  lemma ConstructedIff(c: Config, batches: seq<seq<Happening>>)
    ensures Construct(c, batches).Some? <==> exists k: nat :: ConfiguredBy(batches, k)
  {
    hide AwaitConfigure, CreateFramebuffers;
    ConfiguredIff(BLANK, batches);
  }

  // ---- how a call begins ----

  /** Before anything happens: the first wait goes straight on; a later one ends on a closed window,
      and otherwise needs its frame callback; past that it has applied the pending resize, asked for
      the next callback unless the window is closed, and needs to wait for the slot exactly when
      every slot has been presented once. */
  lemma WaitBegins(s: State, reap: seq<Probe>)
    requires Inv(s) && Settled(s) && RingShape(s)
    ensures var P, N := |s.env.commits|, |s.win.frames|;
            var (s', o) := NextFrame(s, Script(reap, [], []));
            var passed := P == 0 || (s.win.frameDue && !s.win.closed);
            && (o.WindowClosed? <==> P > 0 && s.win.closed)
            && (o.AwaitingFrame? <==> P > 0 && !s.win.closed && !s.win.frameDue)
            && (o.AwaitingRelease? <==> passed && P >= N)
            && (o.Handed? <==> passed && P < N)
            && s'.win.frameDue == (s.win.frameDue && !passed)
            && s'.win.resizePending == (s.win.resizePending && !passed)
            && s'.env.callbacks == s.env.callbacks
                 + (if passed && s.win.frameCallback.None? && !s.win.closed then 1 else 0)
  {
    hide ReapFrom, Granted, OwnershipOk, FeedbackOk, SizesOk, CommitsOk, AllRetiredOk, CurrentBuffersOk, ReleasesOk;
    var sc := Script(reap, [], []);
    var s1 := Reaped(s, sc);
    ReapedOnly(s, sc);
    GrantedSlot(s1);
    GrantedCallback(s1);
    assert SlotOk(s1, s.win.nextFrame);
    LastCommitOf(|s.env.commits|, |s.win.frames|);
  }

  lemma GrantedCallback(s: State)
    ensures Granted(s).env.callbacks
            == s.env.callbacks + (if s.win.frameCallback.None? && !s.win.closed then 1 else 0)
  {
    hide DropFeedbacks, Memory, AllRetired, AllRenewed, UpTo;
  }

  // ---- one more batch of events while it waits for its frame callback ----

  lemma OnePollTurn(s: State, batch: seq<Happening>, more: seq<seq<Happening>>)
    requires !s.win.frameDue && !s.win.closed
    ensures PollLoop(s, [batch] + more) == PollLoop(HappenAll(s, batch), more)
  {
    hide HappenAll;
    assert ([batch] + more)[1..] == more;
  }

  /** A call that waits for its frame callback gets one more batch of events. A close in it ends the
      call there; otherwise, if the callback is in it and the frame in hand had been presented, the
      call goes on to the slot; otherwise it keeps waiting. What would come later makes no
      difference to either end. */
  lemma OneMoreBatch(s: State, sc: Script, batch: seq<Happening>, more: seq<seq<Happening>>)
    requires Inv(s) && Settled(s) && RingShape(s) && NextFrame(s, sc).1.AwaitingFrame?
    ensures RingShape(HappenAll(NextFrame(s, sc).0, batch))
    ensures var t := HappenAll(NextFrame(s, sc).0, batch);
            var longer := sc.(polls := sc.polls + ([batch] + more));
            if Wayland(Close) in batch then NextFrame(s, longer) == (t, WindowClosed)
            else if Wayland(FrameDone) in batch && s.win.handedIndex.None? then
              RingShape(Granted(t)) && NextFrame(s, longer) == ReleaseLoop(Granted(t), sc.attempts)
            else NextFrame(s, sc.(polls := sc.polls + [batch])) == (t, AwaitingFrame)
  {
    hide Inv, Settled, ReapFrom, PollLoop, Granted, ReleaseLoop, HappenAll, Deliverable;
    var t0 := NextFrame(s, sc).0;
    var t, s1 := HappenAll(t0, batch), Reaped(s, sc);
    FirstLoop(s, sc);
    NextFrameKeepsInv(s, sc);
    AwaitingKeepsHanded(s, sc);
    WokenIffPresented(t0);
    HappenAllUntouched(t0, batch);
    FlagsOfBatch(t0, batch);
    PollLoopContinues(s1, sc.polls, [batch] + more);
    OnePollTurn(t0, batch, more);
    PollLoopContinues(s1, sc.polls, [batch]);
    OnePollTurn(t0, batch, []);
    assert [batch] + [] == [batch];
    PollLoopStops(t, more);
    PollLoopStops(t, []);
    GrantedFrame(t);
  }

  lemma PollLoopStops(s: State, polls: seq<seq<Happening>>)
    ensures s.win.frameDue || s.win.closed || polls == [] ==> PollLoop(s, polls) == s
  {
  }

  // A waiting call can be woken exactly when no frame is in hand.
  lemma WokenIffPresented(s: State)
    requires Inv(s) && Settled(s) && |s.env.commits| > 0 && !s.win.frameDue && !s.win.closed
    ensures Deliverable(s, FrameDone) <==> s.win.handedIndex.None?
  {
    hide RingOk, OwnershipOk, FeedbackOk, SizesOk;
  }

  // ---- one more timed wait for the slot ----

  // The wait succeeds: it does not time out, and after what the kernel did before it returned the
  // slot's point, or a later one, is signalled.
  ghost predicate Succeeds(s: State, a: Attempt)
    requires RingShape(s)
  {
    var fb := s.win.frames[s.win.nextFrame];
    !a.probe.timesOut && ReleaseSignalled(KernelAll(s.env, a.probe.kernel), fb.releaseSyncobj, fb.counter)
  }

  ghost function Moved(s: State, a: Attempt): State {
    s.(env := KernelAll(s.env, a.probe.kernel))
  }

  lemma OneTurn(s: State, a: Attempt, more: seq<Attempt>)
    requires RingShape(s) && s.win.frames[s.win.nextFrame].counter > 0 && !s.win.closed
    ensures var t := HappenAll(Moved(s, a), a.drained);
            if Succeeds(s, a) then ReleaseLoop(s, [a] + more) == HandOut(Moved(s, a))
            else if Wayland(Close) in a.drained then ReleaseLoop(s, [a] + more) == (t, WindowClosed)
            else RingShape(t) && ReleaseLoop(s, [a] + more) == ReleaseLoop(t, more)
  {
    hide HappenAll, KernelAll, ReleaseSignalled;
    assert ([a] + more)[1..] == more;
    HappenAllUntouched(Moved(s, a), a.drained);
    FlagsOfBatch(Moved(s, a), a.drained);
  }

  lemma {:induction false} WaitsWithCounter(s: State, attempts: seq<Attempt>)
    requires RingShape(s)
    ensures var (s', o) := ReleaseLoop(s, attempts);
            && RingShape(s')
            && (o.AwaitingRelease? ==>
                  s'.win.frames[s'.win.nextFrame].counter > 0 && (s'.win.closed ==> s.win.closed))
    decreases |attempts|
  {
    hide HappenAll, KernelAll, ReleaseSignalled, Untouched;
    if attempts != [] {
      var s1 := s.(env := KernelAll(s.env, attempts[0].probe.kernel));
      var s2 := HappenAll(s1, attempts[0].drained);
      HappenAllShape(s1, attempts[0].drained);
      if !s2.win.closed {
        WaitsWithCounter(s2, attempts[1..]);
      }
    }
  }

  /** A call never goes on waiting for its slot on a window that has been closed. */
  lemma NeverWaitsClosed(s: State, sc: Script)
    requires Inv(s) && RingShape(s) && NextFrame(s, sc).1.AwaitingRelease?
    ensures var s' := NextFrame(s, sc).0;
            !s'.win.closed && RingShape(s') && s'.win.frames[s'.win.nextFrame].counter > 0
  {
    hide Inv, ReapFrom, PollLoop, Granted, ReleaseLoop;
    var s1 := Reaped(s, sc);
    ReapedOnly(s, sc);
    ReapFromFrame(s, 0, sc.reap);
    PollLoopUntouched(s1, sc.polls);
    InvShape(s);
    if s1.win.presentedOnce {
      var s2 := PollLoop(s1, sc.polls);
      GrantedFrame(s2);
      GrantedSameRecord(s2);
      WaitsWithCounter(Granted(s2), sc.attempts);
    } else {
      FirstWaitReturns(s, sc);
    }
  }

  /** A call that waits for its slot makes one more timed wait. If that succeeds the slot is handed
      out at once; if it fails, what is drained is delivered: a close in it ends the call there,
      and otherwise the call keeps waiting. What would come later makes no difference. */
  lemma OneMoreAttempt(s: State, sc: Script, a: Attempt, more: seq<Attempt>)
    requires Inv(s) && RingShape(s) && NextFrame(s, sc).1.AwaitingRelease?
    ensures RingShape(NextFrame(s, sc).0)
    ensures var s' := NextFrame(s, sc).0;
            var t := HappenAll(Moved(s', a), a.drained);
            var longer := sc.(attempts := sc.attempts + ([a] + more));
            if Succeeds(s', a) then NextFrame(s, longer) == HandOut(Moved(s', a))
            else if Wayland(Close) in a.drained then NextFrame(s, longer) == (t, WindowClosed)
            else NextFrame(s, sc.(attempts := sc.attempts + [a])) == (t, AwaitingRelease)
  {
    hide Inv, NextFrame, ReleaseLoop, HappenAll, Succeeds, HandOut;
    var s' := NextFrame(s, sc).0;
    NeverWaitsClosed(s, sc);
    NextFrameContinues(s, sc, [a] + more);
    OneTurn(s', a, more);
    NextFrameContinues(s, sc, [a]);
    OneTurn(s', a, []);
    assert [a] + [] == [a];
    StillWaits(s', a);
  }

  lemma StillWaits(s: State, a: Attempt)
    requires RingShape(s) && s.win.frames[s.win.nextFrame].counter > 0
    ensures var t := HappenAll(Moved(s, a), a.drained);
            RingShape(t) && ReleaseLoop(t, []) == (t, AwaitingRelease)
  {
    hide HappenAll, KernelAll;
    HappenAllUntouched(Moved(s, a), a.drained);
  }
}
