/** Whole runs: any application, any compositor and any GPU schedule, from construction on. */
module RingRuns {
  import opened Prelude
  import opened Ring
  import opened RingArithmetic
  import opened RingInvariant
  import opened RingSteps
  import opened RingCommit

  // ---- next_frame as a whole ----

  // No submission, fence, acquire point or commit comes or goes.
  ghost predicate SameWork(e: Env, e': Env) {
    && e'.jobs == e.jobs && e'.fences == e.fences && e'.acquire == e.acquire && e'.commits == e.commits
    && e.done <= e'.done && e.released <= e'.released
  }

  lemma {:induction false} PollLoopKeepsInv(s: State, polls: seq<seq<Happening>>)
    requires Inv(s) && Settled(s)
    ensures var s' := PollLoop(s, polls);
            Inv(s') && Settled(s') && SameWork(s.env, s'.env)
    decreases |polls|
  {
    hide Inv, HappenAll;
    if !(s.win.frameDue || s.win.closed || polls == []) {
      HappenAllKeepsInv(s, polls[0]);
      HappenAllUntouched(s, polls[0]);
      PollLoopKeepsInv(HappenAll(s, polls[0]), polls[1..]);
    }
  }

  // The release point of the slot being waited for is signalled, or there is none to wait for.
  ghost predicate SlotFree(s: State)
    requires RingShape(s)
  {
    var fb := s.win.frames[s.win.nextFrame];
    fb.counter == 0 || ReleaseSignalled(s.env, fb.releaseSyncobj, fb.counter)
  }

  lemma HandedOut(s: State)
    requires Inv(s) && Armed(s) && Paid(s) && RingShape(s) && SlotFree(s)
    ensures var (s', o) := HandOut(s);
            && Inv(s') && Settled(s') && SameWork(s.env, s'.env) && RingShape(s')
            && s' == HandOut(s').0 && o == HandOut(s').1 && o.Handed?
  {
    hide Inv, ReleaseSignalled, Armed, Paid, Settled;
    HandOutKeepsInv(s);
  }

  lemma {:induction false} ReleaseLoopKeepsInv(s: State, attempts: seq<Attempt>)
    requires Inv(s) && Armed(s) && Paid(s) && RingShape(s)
    ensures var (s', o) := ReleaseLoop(s, attempts);
            && Inv(s') && SameWork(s.env, s'.env) && RingShape(s')
            && (o.Handed? ==> Settled(s') && s' == HandOut(s').0 && o == HandOut(s').1)
            && (o.WindowClosed? ==> s'.win.closed)
            && (o.AwaitingRelease? ==> s'.win.frames[s'.win.nextFrame].counter > 0)
            && !o.AwaitingFrame?
    decreases |attempts|
  {
    hide Inv, HappenAll, KernelAll, ReleaseSignalled, Armed, Paid, Settled, HandOut;
    var fb := s.win.frames[s.win.nextFrame];
    if fb.counter == 0 {
      HandedOut(s);
    } else if attempts != [] {
      var (s1, ready) := WaitReleasePoint(s, fb.releaseSyncobj, fb.counter, attempts[0].probe);
      ProbeKeeps(s, attempts[0].probe.kernel);
      if ready {
        HandedOut(s1);
      } else {
        var s2 := HappenAll(s1, attempts[0].drained);
        HappenAllKeepsInv(s1, attempts[0].drained);
        HappenAllUntouched(s1, attempts[0].drained);
        if !s2.win.closed {
          ReleaseLoopKeepsInv(s2, attempts[1..]);
        }
      }
    }
  }

  lemma ProbeKeeps(s: State, es: seq<KernelEvent>)
    requires Inv(s) && Armed(s) && Paid(s)
    ensures var s' := s.(env := KernelAll(s.env, es));
            Inv(s') && Armed(s') && Paid(s') && SameWork(s.env, s'.env)
  {
    hide Inv, KernelAll;
    KernelAllKeepsInv(s, es);
  }

  lemma GrantedSameWork(s: State)
    requires Inv(s)
    ensures SameWork(s.env, Granted(s).env)
  {
    hide Inv, DropFeedbacks, Memory, AllRetired, AllRenewed;
    ResizeEnv(s);
  }

  // What a returning or blocked wait_frame guarantees about the state it leaves.
  ghost predicate WaitResult(s: State, s': State, o: Outcome) {
    && Inv(s') && SameWork(s.env, s'.env) && RingShape(s')
    && (!o.AwaitingRelease? ==> Settled(s'))
    && (o.Handed? ==> s' == HandOut(s').0 && o == HandOut(s').1)
    && (o.AwaitingFrame? ==> |s'.env.commits| > 0 && !s'.win.frameDue && !s'.win.closed)
    && (o.AwaitingRelease? ==> s'.win.frames[s'.win.nextFrame].counter > 0)
    && (o.WindowClosed? ==> s'.win.closed)
  }

  lemma InvShape(s: State)
    requires Inv(s)
    ensures RingShape(s) && (s.win.presentedOnce <==> |s.env.commits| > 0)
  {
  }

  lemma GrantedLoop(s: State, attempts: seq<Attempt>)
    requires Inv(s) && (|s.env.commits| > 0 ==> s.win.frameDue) && RingShape(s)
    ensures var (s', o) := ReleaseLoop(Granted(s), attempts);
            WaitResult(s, s', o) && !o.AwaitingFrame?
  {
    hide Inv, Granted, HandOut, ReleaseLoop;
    GrantedKeepsInv(s);
    GrantedSameWork(s);
    InvShape(Granted(s));
    ReleaseLoopKeepsInv(Granted(s), attempts);
    var (s', o) := ReleaseLoop(Granted(s), attempts);
    assert WaitResult(s, s', o);
  }

  lemma ReapSettles(s: State, probes: seq<Probe>)
    requires Inv(s) && Settled(s)
    ensures var s' := if s.win.retired != [] then ReapFrom(s, 0, probes) else s;
            Inv(s') && Settled(s') && SameWork(s.env, s'.env)
  {
    hide Inv, ReapFrom;
    ReapKeepsInv(s, 0, probes);
  }

  /** wait_frame keeps the invariant, whatever happens outside while it runs. */
  lemma NextFrameKeepsInv(s: State, sc: Script)
    requires Inv(s) && Settled(s) && RingShape(s)
    ensures var (s', o) := NextFrame(s, sc); WaitResult(s, s', o)
  {
    hide Inv, ReapFrom, PollLoop, Granted, HandOut, ReleaseLoop;
    var s1 := if s.win.retired != [] then ReapFrom(s, 0, sc.reap) else s;
    ReapSettles(s, sc.reap);
    InvShape(s1);
    if s1.win.presentedOnce {
      var s2 := PollLoop(s1, sc.polls);
      PollLoopKeepsInv(s1, sc.polls);
      InvShape(s2);
      if s2.win.frameDue && !s2.win.closed {
        GrantedLoop(s2, sc.attempts);
      }
    } else {
      GrantedLoop(s1, sc.attempts);
    }
  }

  // ---- the application ----

  // A run: the system, the frame the application may still draw into, whether it has kept to one
  // submission per presented frame, and the blocked call it is inside of, if any.
  datatype Sys = Sys(s: State, frame: Option<Frame>, honest: bool, blocked: Option<Outcome>)

  datatype Action =
    | WaitFrame(script: Script)
    | SubmitWork
    | Present(index: nat)
    | Outside(happenings: seq<Happening>)

  // No fence carries a submission that has not been presented.
  ghost predicate AllIdle(env: Env) {
    forall i | 0 <= i < |env.fences| :: env.fences[i].Idle?
  }

  ghost function Act(y: Sys, a: Action): Sys
    requires RingShape(y.s)
  {
    if y.blocked.Some? then y else
      match a
      case WaitFrame(sc) =>
        var (s', o) := NextFrame(y.s, sc);
        Sys(s', if o.Handed? then Some(o.frame) else None, y.honest && AllIdle(y.s.env),
            if o.AwaitingFrame? || o.AwaitingRelease? then Some(o) else None)
      case SubmitWork =>
        if y.frame.None? then y else y.(s := y.s.(env := Submit(y.s.env, y.frame.value)))
      case Present(i) =>
        var (s', e) := CommitFrame(y.s, i);
        y.(s := s', frame := if e.None? then None else y.frame)
      case Outside(hs) => y.(s := HappenAll(y.s, hs))
  }

  // ---- what holds in every state of every run ----

  // The application's frame is still the handed slot.
  ghost predicate FrameOk(s: State, f: Frame) {
    && s.win.handedIndex == Some(f.index) && f.index < |s.win.frames|
    && f.image == s.win.frames[f.index].image && f.renderFence == Some(f.index)
  }

  // One job per commit, in order, bound to that commit's acquire point; at most one more, on the
  // handed slot, waiting to be presented.
  ghost predicate HonestOk(s: State) {
    var N, P := |s.win.frames|, |s.env.commits|;
    && N > 0 && |s.env.fences| == N
    && P <= |s.env.jobs| <= P + 1
    && (forall j | 0 <= j < |s.env.jobs| :: s.env.jobs[j].fence == Some(SlotOf(j, N)))
    && (forall k | 0 <= k < P :: AcquireKey(k, N) in s.env.acquire && s.env.acquire[AcquireKey(k, N)] == k)
    && (forall i | 0 <= i < N && s.env.fences[i].Busy? ::
          i == SlotOf(P, N) && s.env.fences[i].job == P && |s.env.jobs| == P + 1)
    && (|s.env.jobs| == P + 1 ==> s.env.fences[SlotOf(P, N)] == Busy(P))
  }

  ghost function AcquireKey(k: nat, N: nat): (Option<nat>, nat)
    requires N > 0
  {
    (Some(2 * SlotOf(k, N)), PointOf(k, N))
  }

  ghost predicate Good(y: Sys) {
    && Inv(y.s) && RingShape(y.s)
    && (y.blocked != Some(AwaitingRelease) ==> Settled(y.s))
    && (y.frame.Some? ==> FrameOk(y.s, y.frame.value))
    && (y.honest ==> HonestOk(y.s))
    && (y.blocked.Some? ==> y.blocked.value.AwaitingFrame? || y.blocked.value.AwaitingRelease?)
    && (y.blocked == Some(AwaitingFrame) ==> |y.s.env.commits| > 0 && !y.s.win.frameDue && !y.s.win.closed)
    && (y.blocked == Some(AwaitingRelease) ==> y.s.win.frames[y.s.win.nextFrame].counter > 0)
  }

  lemma HonestCarries(s: State, s': State)
    requires HonestOk(s) && SameWork(s.env, s'.env) && |s'.win.frames| == |s.win.frames|
    ensures HonestOk(s')
  {
  }

  lemma HandOutFrame(s: State)
    requires Inv(s) && RingShape(s) && s == HandOut(s).0
    ensures FrameOk(s, HandOut(s).1.frame)
  {
    assert SlotOk(s, s.win.nextFrame);
  }

  lemma WaitKeepsGood(y: Sys, sc: Script)
    requires Good(y) && y.blocked.None?
    ensures Good(Act(y, WaitFrame(sc)))
  {
    hide Inv, NextFrame, HonestOk;
    var (s', o) := NextFrame(y.s, sc);
    NextFrameKeepsInv(y.s, sc);
    if o.Handed? {
      HandOutFrame(s');
    }
    if y.honest {
      SameRingSize(y.s, s');
      HonestCarries(y.s, s');
    }
  }

  lemma SameRingSize(s: State, s': State)
    requires Inv(s) && Inv(s') && s'.env.fences == s.env.fences
    ensures |s'.win.frames| == |s.win.frames|
  {
  }

  // ---- submit ----

  lemma SubmitRing(s: State, f: Frame)
    requires RingOk(s) && FrameOk(s, f)
    ensures RingOk(s.(env := Submit(s.env, f)))
  {
    var s' := s.(env := Submit(s.env, f));
    assert SlotOk(s, f.index);
    SubmitRecord(s, f);
    forall i | 0 <= i < |s.win.frames|
      ensures SlotOk(s', i)
    {
      assert SlotOk(s, i);
    }
    forall a | 0 <= a < |s.win.retired|
      ensures RetiredOk(s', s.win.retired[a])
    {
      assert RetiredOk(s, s.win.retired[a]);
    }
  }

  lemma SubmitRecord(s: State, f: Frame)
    requires RingOk(s) && FrameOk(s, f)
    ensures CommitsOk(Submit(s.env, f), |s.win.frames|)
    ensures ReleasesOk(s.(env := Submit(s.env, f)))
  {
    hide SlotOk, RetiredOk, SlotOf, PointOf;
    var env := Submit(s.env, f);
    forall k | 0 <= k < |s.env.commits|
      ensures CommitOk(env, k, |s.win.frames|)
      ensures AcquireSignalled(env, k) == AcquireSignalled(s.env, k)
    {
      assert CommitOk(s.env, k, |s.win.frames|);
    }
  }

  lemma SubmitKeepsInv(s: State, f: Frame)
    requires Inv(s) && FrameOk(s, f)
    ensures Inv(s.(env := Submit(s.env, f)))
  {
    hide RingOk;
    SubmitRing(s, f);
    assert forall r :: Owns(s.(env := Submit(s.env, f)), r) <==> Owns(s, r);
    HeldCarries(s, s.(env := Submit(s.env, f)));
  }

  lemma SubmitKeepsGood(y: Sys)
    requires Good(y) && y.blocked.None?
    ensures Good(Act(y, SubmitWork))
  {
    hide Inv;
    if y.frame.Some? {
      SubmitKeepsInv(y.s, y.frame.value);
      InvSlots(y.s);
    }
  }

  lemma InvSlots(s: State)
    requires Inv(s)
    ensures SlotsOk(s)
  {
  }

  // ---- present ----

  lemma CommitHonest(s: State, index: nat)
    requires RingOk(s) && HonestOk(s) && Commits(s, index)
    ensures HonestOk(After(s, index))
  {
    var s', N, P := After(s, index), |s.win.frames|, |s.env.commits|;
    assert SlotOk(s, index);
    NextCommit(P, index, N);
    forall k | 0 <= k < P + 1
      ensures AcquireKey(k, N) in s'.env.acquire && s'.env.acquire[AcquireKey(k, N)] == k
    {
      if k < P && SlotOf(k, N) == SlotOf(P, N) {
        SameSlot(k, P, N);
      }
    }
  }

  lemma PresentKeepsGood(y: Sys, i: nat)
    requires Good(y) && y.blocked.None?
    ensures Good(Act(y, Present(i)))
  {
    hide CommitFrame, OwnershipOk, FeedbackOk, PacingOk, SizesOk, HonestOk;
    if Commits(y.s, i) {
      CommitKeepsInv(y.s, i);
      InvShape(After(y.s, i));
      if y.honest {
        CommitHonest(y.s, i);
      }
    } else {
      RefusedPresent(y.s, i);
    }
  }

  /** A present that fails changes nothing. */
  lemma RefusedPresent(s: State, i: nat)
    requires RingShape(s) && CommitFrame(s, i).1.Some?
    ensures CommitFrame(s, i).0 == s
  {
  }

  // ---- any action ----

  lemma OutsideKeepsGood(y: Sys, hs: seq<Happening>)
    requires Good(y) && y.blocked.None?
    ensures Good(Act(y, Outside(hs)))
  {
    hide Inv, HonestOk, HappenAll;
    HappenAllKeepsInv(y.s, hs);
    HappenAllUntouched(y.s, hs);
    InvShape(HappenAll(y.s, hs));
    if y.honest {
      HonestCarries(y.s, HappenAll(y.s, hs));
    }
  }

  lemma ActKeepsGood(y: Sys, a: Action)
    requires Good(y)
    ensures Good(Act(y, a))
  {
    hide Good;
    if y.blocked.None? {
      match a
      case WaitFrame(sc) => WaitKeepsGood(y, sc);
      case SubmitWork => SubmitKeepsGood(y);
      case Present(i) => PresentKeepsGood(y, i);
      case Outside(hs) => OutsideKeepsGood(y, hs);
    }
  }

  /** Any number of actions, from any good state, ends in a good state. */
  ghost function Run(y: Sys, actions: seq<Action>): (r: Sys)
    requires Good(y)
    ensures Good(r)
    decreases |actions|
  {
    if actions == [] then y
    else
      ActKeepsGood(y, actions[0]);
      Run(Act(y, actions[0]), actions[1..])
  }

  lemma GoodShape(y: Sys)
    requires Good(y)
    ensures RingShape(y.s)
  {
  }

  // ---- one step of a run ----

  lemma RunStep(y: Sys, a: Action, rest: seq<Action>)
    requires Good(y)
    ensures Good(Act(y, a)) && RingShape(Act(y, a).s)
    ensures Run(y, [a] + rest) == Run(Act(y, a), rest)
  {
    hide Act;
    ActKeepsGood(y, a);
    assert ([a] + rest)[1..] == rest;
  }

  lemma RunEnd(y: Sys, a: Action)
    requires Good(y)
    ensures Good(Act(y, a)) && Run(y, [a]) == Act(y, a)
  {
    hide Act;
    RunStep(y, a, []);
    assert [a] + [] == [a];
  }

  // ---- construction ----

  // Before the slots exist only the size request is tracked.
  ghost predicate Booting(s: State) {
    && s.win == BLANK.win.(configured := s.win.configured, closed := s.win.closed,
                           pendingWidth := s.win.pendingWidth, pendingHeight := s.win.pendingHeight,
                           resizePending := s.win.resizePending)
    && s.env == BLANK.env.(lastConfigure := s.env.lastConfigure)
    && PendingOk(s)
  }

  lemma {:induction false} HappenAllBooting(s: State, hs: seq<Happening>)
    requires Booting(s)
    ensures Booting(HappenAll(s, hs))
    decreases |hs|
  {
    if hs != [] {
      HappenBooting(s, hs[0]);
      HappenAllBooting(Happen(s, hs[0]), hs[1..]);
    }
  }

  lemma HappenBooting(s: State, h: Happening)
    requires Booting(s)
    ensures Booting(Happen(s, h))
  {
    if h.Wayland? {
      match h.event
      case FrameDone =>
      case ToplevelConfigure(_, _) =>
      case SurfaceConfigure =>
      case Close =>
      case Presented(_, _, _) =>
      case Discarded(_) =>
    }
  }

  lemma {:induction false} AwaitBooting(s: State, batches: seq<seq<Happening>>)
    requires Booting(s)
    ensures Booting(AwaitConfigure(s, batches))
    decreases |batches|
  {
    hide HappenAll, Booting;
    if !(s.win.configured || s.win.closed || batches == []) {
      HappenAllBooting(s, batches[0]);
      AwaitBooting(HappenAll(s, batches[0]), batches[1..]);
    }
  }

  ghost predicate Usable(c: Config) {
    c.width > 0 && c.height > 0 && c.bufferCount > 0
  }

  lemma FirstRing(s: State, c: Config)
    requires Booting(s) && Usable(c)
    ensures RingOk(CreateFramebuffers(s, c)) && HonestOk(CreateFramebuffers(s, c))
  {
    hide Memory, SyncHandles;
  }

  lemma FirstOwnership(s: State, c: Config)
    requires Booting(s)
    ensures OwnershipOk(CreateFramebuffers(s, c))
  {
    var s', N := CreateFramebuffers(s, c), c.bufferCount;
    assert forall n: nat :: OwnsMemory(s', n) <==> n < N;
    assert s'.env.live == Memory(0, N) + SyncHandles(N);
    assert forall r :: Owns(s', r) <==> r in Memory(0, N) + SyncHandles(N);
  }

  lemma FirstCounts(s: State, c: Config)
    requires Booting(s) && s.win.configured && Usable(c)
    ensures var s' := CreateFramebuffers(s, c);
            FeedbackOk(s') && PacingOk(s') && SizesOk(s') && Settled(s') && RingShape(s')
  {
    hide Memory, SyncHandles;
  }

  lemma FirstSlots(s: State, c: Config)
    requires Booting(s) && s.win.configured && Usable(c)
    ensures var s' := CreateFramebuffers(s, c);
            Inv(s') && Settled(s') && HonestOk(s') && RingShape(s')
  {
    hide CreateFramebuffers, RingOk, OwnershipOk, FeedbackOk, PacingOk, SizesOk, HonestOk;
    FirstRing(s, c);
    FirstOwnership(s, c);
    FirstCounts(s, c);
  }

  // A window that was constructed from this configuration and these first events.
  ghost predicate Constructed(c: Config, batches: seq<seq<Happening>>) {
    Usable(c) && Construct(c, batches).Some?
  }

  /** The states a program can reach: construct a window, then take any actions. */
  ghost function Reach(c: Config, batches: seq<seq<Happening>>, actions: seq<Action>): (y: Sys)
    requires Constructed(c, batches)
    ensures Good(y)
  {
    AwaitBooting(BLANK, batches);
    FirstSlots(AwaitConfigure(BLANK, batches), c);
    Run(Sys(Construct(c, batches).value, None, true, None), actions)
  }
}
