/** Two runs that show the limits of the theorems: with one buffer the ring can wait for ever, and
    the destructor can leave a feedback object behind. */
module RingWitness {
  import opened Prelude
  import opened Ring
  import opened RingInvariant
  import opened RingRuns
  import opened RingTheorems
  import opened RingTeardown

  function OneBuffer(collectStats: bool): Config {
    Config(640, 480, 1, collectStats)
  }

  const BOOT: seq<seq<Happening>> := [[Wayland(SurfaceConfigure)]]

  const AT_ONCE := WaitFrame(Script([], [], [Attempt(Probe([], false), [])]))

  // ---- the beginning both runs share ----

  lemma Boot(collectStats: bool)
    ensures Constructed(OneBuffer(collectStats), BOOT)
    ensures var s := Construct(OneBuffer(collectStats), BOOT).value;
            && s.win.frames == [InitialSlot(0)] && s.win.retired == [] && s.win.nextFrame == 0
            && !s.win.presentedOnce && !s.win.resizePending && !s.win.closed && !s.win.frameDue
            && s.win.collectStats == collectStats && s.win.frameCallback == None
            && s.env.fences == [Idle] && s.env.jobs == [] && s.env.commits == []
            && s.env.released == {} && s.env.done == {} && s.env.feedbacks == 0
  {
    assert BOOT[0][1..] == [] && BOOT[1..] == [];
    var s := AwaitConfigure(BLANK, BOOT);
    assert HappenAll(BLANK, BOOT[0]) == HappenAll(Happen(BLANK, Wayland(SurfaceConfigure)), []);
    assert s == BLANK.(win := BLANK.win.(configured := true));
  }

  ghost function Start(collectStats: bool): (y: Sys)
    ensures Good(y)
  {
    Boot(collectStats);
    Reach(OneBuffer(collectStats), BOOT, [])
  }

  lemma StartIs(collectStats: bool)
    ensures Constructed(OneBuffer(collectStats), BOOT)
    ensures Start(collectStats) == Sys(Construct(OneBuffer(collectStats), BOOT).value, None, true, None)
    ensures forall actions :: Reach(OneBuffer(collectStats), BOOT, actions) == Run(Start(collectStats), actions)
  {
    hide Construct, Good;
    Boot(collectStats);
  }

  lemma FirstFrame(s: State)
    requires s.win.frames == [InitialSlot(0)] && s.win.retired == [] && s.win.nextFrame == 0
    requires !s.win.presentedOnce && !s.win.resizePending && !s.win.closed && s.win.frameCallback == None
    ensures var (s', o) := NextFrame(s, AT_ONCE.script);
            && o == Handed(Frame(0, Some(0), Some(0), Some(0)))
            && s'.win == s.win.(frameDue := false, frameCallback := s'.win.frameCallback, handedIndex := Some(0))
            && s'.win.frameCallback.Some?
            && s'.env == s.env.(callbacks := s'.env.callbacks, live := s'.env.live, callbackCommitted := false)
  {
  }

  // One frame drawn and presented.
  lemma Shown(collectStats: bool) returns (y: Sys)
    ensures Good(y) && y.honest && y.blocked.None? && y.frame.None?
    ensures forall rest :: Run(Start(collectStats), [AT_ONCE, SubmitWork, Present(0)] + rest) == Run(y, rest)
    ensures |y.s.win.frames| == 1 && y.s.win.retired == [] && y.s.win.nextFrame == 0
    ensures y.s.win.frames[0]
            == InitialSlot(0).(counter := 1, presentFeedback := if collectStats then Some(0) else None)
    ensures y.s.win.presentedOnce && !y.s.win.resizePending && !y.s.win.closed && !y.s.win.frameDue
    ensures y.s.win.collectStats == collectStats
    ensures y.s.win.frameCallback.Some? && y.s.env.callbackCommitted
    ensures |y.s.env.jobs| == 1 && y.s.env.fences == [Idle]
    ensures y.s.env.commits == [Commit(Some(0), 1, Some(1), 1, Some(0))]
    ensures y.s.env.released == {} && y.s.env.done == {}
    ensures y.s.env.acquire == map[(Some(0), 1) := 0]
    ensures collectStats ==> y.s.env.feedbacks == 1
    ensures y.s.win.handedIndex.None?
  {
    hide Construct, NextFrame, Good, Inv, Start;
    Boot(collectStats);
    StartIs(collectStats);
    var y0 := Start(collectStats);
    FirstFrame(y0.s);
    MapStartsEmpty(collectStats);
    RunStep(y0, AT_ONCE, []);
    var y1 := Act(y0, AT_ONCE);
    RunStep(y1, SubmitWork, []);
    var y2 := Act(y1, SubmitWork);
    RunStep(y2, Present(0), []);
    y := Act(y2, Present(0));
    forall rest
      ensures Run(y0, [AT_ONCE, SubmitWork, Present(0)] + rest) == Run(y, rest)
    {
      RunStep(y0, AT_ONCE, [SubmitWork, Present(0)] + rest);
      RunStep(y1, SubmitWork, [Present(0)] + rest);
      RunStep(y2, Present(0), rest);
      assert [AT_ONCE, SubmitWork, Present(0)] + rest == [AT_ONCE] + ([SubmitWork, Present(0)] + rest);
      assert [SubmitWork, Present(0)] + rest == [SubmitWork] + ([Present(0)] + rest);
    }
  }

  lemma MapStartsEmpty(collectStats: bool)
    ensures Start(collectStats).s.env.acquire == map[]
  {
    hide Good, Inv;
    StartIs(collectStats);
    assert BOOT[0][1..] == [] && BOOT[1..] == [];
    assert HappenAll(BLANK, BOOT[0]) == HappenAll(Happen(BLANK, Wayland(SurfaceConfigure)), []);
  }

  // ---- one buffer waits for ever ----

  // The GPU finishes and the frame callback fires; the compositor keeps the only buffer.
  const KEPT: seq<Happening> := [Async(JobDone(0)), Wayland(FrameDone)]

  lemma SecondWait(s: State)
    requires |s.win.frames| == 1 && s.win.frames[0].counter == 1 && s.win.retired == [] && s.win.nextFrame == 0
    requires s.win.presentedOnce && !s.win.resizePending && !s.win.closed && !s.win.frameDue
    requires s.win.frameCallback.Some? && s.env.callbackCommitted && |s.env.jobs| == 1
    ensures var (s', o) := NextFrame(s, Script([], [KEPT], []));
            && o == AwaitingRelease
            && s'.env.commits == s.env.commits && s'.env.released == s.env.released
            && s'.env.acquire == s.env.acquire && s'.env.done == s.env.done + {0}
            && |s'.win.frames| == 1
  {
    assert KEPT[1..] == [Wayland(FrameDone)] && KEPT[1..][1..] == [];
    var s1 := s.(env := Kernel(s.env, JobDone(0)));
    var s2 := Dispatch(s1, FrameDone);
    assert HappenAll(s, KEPT) == HappenAll(s1, KEPT[1..]) == HappenAll(s2, []) == s2;
    assert PollLoop(s, [KEPT]) == s2;
  }

  /** With one buffer an application that keeps to every contract can block with nothing left that
      the GPU must finish or the compositor must release. */
  lemma SingleBufferStalls()
    ensures Constructed(OneBuffer(false), BOOT)
    ensures var y := Reach(OneBuffer(false), BOOT,
                           [AT_ONCE, SubmitWork, Present(0)] + [WaitFrame(Script([], [KEPT], []))]);
            && y.blocked == Some(AwaitingRelease) && y.honest
            && |y.s.env.commits| == 1 && 0 !in y.s.env.released
            && AcquireSignalled(y.s.env, 0) && !MustRelease(y.s.env, 0) && !WaitsForGpu(y.s.env, 0)
  {
    hide NextFrame, Good, Inv, Start, Construct, Run;
    StartIs(false);
    var y := Shown(false);
    SecondWait(y.s);
    RunEnd(y, WaitFrame(Script([], [KEPT], [])));
  }

  // ---- a feedback object is left behind ----

  // The buffer comes back and the frame callback fires; the feedback is not answered.
  const RETURNED: seq<Happening> := [Async(JobDone(0)), Async(Release(0)), Wayland(FrameDone)]

  lemma AllReturned(s: State)
    requires s.win.frameCallback.Some? && s.env.callbackCommitted && |s.env.jobs| == 1
    requires s.env.commits == [Commit(Some(0), 1, Some(1), 1, Some(0))] && s.env.acquire == map[(Some(0), 1) := 0]
    ensures var s' := HappenAll(s, RETURNED);
            && s'.win == s.win.(frameCallback := None, frameDue := true)
            && s'.env == s.env.(done := s.env.done + {0}, released := s.env.released + {0}, live := s'.env.live,
                                doubleFrees := s'.env.doubleFrees, callbackCommitted := false,
                                frameDones := s.env.frameDones + 1)
  {
    assert RETURNED[1..] == [Async(Release(0)), Wayland(FrameDone)];
    assert RETURNED[1..][1..] == [Wayland(FrameDone)] && RETURNED[1..][1..][1..] == [];
    var s1 := s.(env := Kernel(s.env, JobDone(0)));
    var s2 := s1.(env := Kernel(s1.env, Release(0)));
    assert HappenAll(s, RETURNED) == HappenAll(s1, RETURNED[1..]) == HappenAll(s2, RETURNED[1..][1..])
        == HappenAll(Dispatch(s2, FrameDone), []);
  }

  lemma SecondFrame(s: State)
    requires |s.win.frames| == 1 && s.win.retired == [] && s.win.nextFrame == 0
    requires s.win.presentedOnce && s.win.frameDue && !s.win.resizePending && !s.win.closed
    requires s.win.frames[0].counter == 1 && s.win.frames[0].releaseSyncobj == Some(1)
    requires s.env.commits == [Commit(Some(0), 1, Some(1), 1, Some(0))] && 0 in s.env.released
    ensures var (s', o) := NextFrame(s, AT_ONCE.script);
            && o == Handed(Frame(0, s.win.frames[0].image, s.win.frames[0].dmaBufFd, s.win.frames[0].renderFence))
            && s'.win == s.win.(frameDue := false, frameCallback := s'.win.frameCallback, handedIndex := Some(0))
            && s'.env == s.env.(callbacks := s'.env.callbacks, live := s'.env.live,
                                callbackCommitted := s'.env.callbackCommitted)
  {
    assert PollLoop(s, []) == s;
    assert ReleaseSignalled(s.env, Some(1), 1);
    assert forall env :: KernelAll(env, []) == env;
  }

  function Recommitted(): seq<Action> {
    [AT_ONCE, SubmitWork, Present(0)] + [Outside(RETURNED), AT_ONCE, SubmitWork, Present(0)]
  }

  /** A contract-keeping run after which the destructor leaves feedback object 0 behind: its slot
      was committed again before the object was answered. */
  lemma DestructorLeavesFeedback()
    ensures Constructed(OneBuffer(true), BOOT)
    ensures var y := Reach(OneBuffer(true), BOOT, Recommitted());
            && y.honest && y.blocked.None?
            && 0 in y.s.env.liveFeedbacks && !Referenced(y.s.win.frames, 0)
            && 0 in Teardown(y.s).liveFeedbacks
  {
    hide NextFrame, HappenAll, Good, Inv, Start, Construct, Run, Teardown;
    StartIs(true);
    var y := Shown(true);
    AllReturned(y.s);
    RunStep(y, Outside(RETURNED), [AT_ONCE, SubmitWork, Present(0)]);
    var y1 := Act(y, Outside(RETURNED));
    SecondFrame(y1.s);
    RunStep(y1, AT_ONCE, [SubmitWork, Present(0)]);
    var y2 := Act(y1, AT_ONCE);
    RunStep(y2, SubmitWork, [Present(0)]);
    var y3 := Act(y2, SubmitWork);
    RunEnd(y3, Present(0));
    var y4 := Act(y3, Present(0));
    assert [Outside(RETURNED), AT_ONCE, SubmitWork, Present(0)]
        == [Outside(RETURNED)] + [AT_ONCE, SubmitWork, Present(0)];
    assert [AT_ONCE, SubmitWork, Present(0)] == [AT_ONCE] + [SubmitWork, Present(0)];
    assert [SubmitWork, Present(0)] == [SubmitWork] + [Present(0)];
    FirstFeedbackLives(y);
    TeardownFreesAll(OneBuffer(true), BOOT, Recommitted());
  }

  lemma FirstFeedbackLives(y: Sys)
    requires Good(y) && |y.s.win.frames| == 1 && y.s.win.frames[0].presentFeedback == Some(0)
    ensures 0 in y.s.env.liveFeedbacks
  {
  }
}
