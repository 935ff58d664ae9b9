/** When a present goes through, and what it commits. */
module RingPresents {
  import opened Prelude
  import opened Ring
  import opened RingInvariant
  import opened RingRuns

  // The fence of slot i carries the payload of a submission.
  ghost predicate Submitted(s: State, i: nat) {
    i < |s.env.fences| && s.env.fences[i].Busy?
  }

  /** A present is accepted if and only if it names the frame in hand and work was submitted on that
      frame's fence; nothing else can refuse it. The two refusals are told apart by their error. */
  lemma PresentAcceptedIff(s: State, i: nat)
    requires Inv(s) && RingShape(s)
    ensures var e := CommitFrame(s, i).1;
            && (e.None? <==> s.win.handedIndex == Some(i) && Submitted(s, i))
            && (e == Some(StaleFrame) <==> s.win.handedIndex != Some(i))
            && (e == Some(NoSyncFd) <==> s.win.handedIndex == Some(i) && !Submitted(s, i))
  {
    hide OwnershipOk, FeedbackOk, PacingOk, SizesOk, CommitsOk, AllRetiredOk, CurrentBuffersOk, ReleasesOk;
    assert i < |s.win.frames| ==> SlotOk(s, i);
  }

  /** An accepted present commits the frame's own image, once, on the slot's timelines, one point
      after the slot's last; the acquire point is bound to the submission, whose fence is free again;
      and the commit carries the outstanding frame callback. */
  lemma PresentCommits(s: State, i: nat)
    requires Inv(s) && RingShape(s) && s.win.handedIndex == Some(i) && Submitted(s, i)
    ensures i < |s.win.frames|
    ensures var s', fb := CommitFrame(s, i).0, s.win.frames[i];
            var commit := Commit(fb.acquireSyncobj, fb.counter + 1, fb.releaseSyncobj, fb.counter + 1, fb.image);
            && s'.env.commits == s.env.commits + [commit]
            && (commit.acquire, commit.acquirePoint) in s'.env.acquire
            && s'.env.acquire[(commit.acquire, commit.acquirePoint)] == s.env.fences[i].job
            && !Submitted(s', i)
            && s'.win.handedIndex.None?
            && s'.env.callbackCommitted == s.win.frameCallback.Some?
  {
    hide OwnershipOk, FeedbackOk, PacingOk, SizesOk, CommitsOk, AllRetiredOk, CurrentBuffersOk, ReleasesOk;
    assert i == s.win.nextFrame;
    assert SlotOk(s, i);
  }

  // ---- over runs ----

  // y' has made exactly one more commit than y: of this image, ready when this job is done.
  ghost predicate OneMoreCommit(y: Sys, y': Sys, image: Option<nat>, job: nat) {
    && |y'.s.env.commits| == |y.s.env.commits| + 1 && y.s.env.commits <= y'.s.env.commits
    && var commit := y'.s.env.commits[|y.s.env.commits|];
       && commit.buffer == image
       && (commit.acquire, commit.acquirePoint) in y'.s.env.acquire
       && y'.s.env.acquire[(commit.acquire, commit.acquirePoint)] == job
  }

  lemma EventsKeepSubmitted(y: Sys, hs: seq<Happening>)
    requires Good(y) && y.blocked.None? && y.frame.Some? && Submitted(y.s, y.frame.value.index)
    ensures var y1, i := Act(y, Outside(hs)), y.frame.value.index;
            && Good(y1) && y1.blocked.None? && y1.frame == y.frame && y1.s.env.commits == y.s.env.commits
            && y1.s.win.handedIndex == Some(i) && Submitted(y1.s, i)
            && y1.s.env.fences == y.s.env.fences
  {
    hide Inv, HonestOk, Settled, HappenAll;
    ActKeepsGood(y, Outside(hs));
    HappenAllUntouched(y.s, hs);
  }

  lemma HandedIsPresented(y: Sys)
    requires Good(y) && y.blocked.None? && y.frame.Some? && Submitted(y.s, y.frame.value.index)
    ensures var f := y.frame.value;
            OneMoreCommit(y, Act(y, Present(f.index)), f.image, y.s.env.fences[f.index].job)
  {
    hide Inv, HonestOk, Settled, CommitFrame;
    var i := y.frame.value.index;
    PresentAcceptedIff(y.s, i);
    PresentCommits(y.s, i);
  }

  /** A frame in hand with submitted work can always be presented, whatever events arrive first - a
      configure, a close, anything: the present makes exactly one commit, of that frame's image. */
  lemma FrameInHandIsPresented(y: Sys, hs: seq<Happening>)
    requires Good(y) && y.blocked.None? && y.frame.Some? && Submitted(y.s, y.frame.value.index)
    ensures var f := y.frame.value;
            OneMoreCommit(y, Run(y, [Outside(hs), Present(f.index)]), f.image, y.s.env.fences[f.index].job)
  {
    hide Good, Act, OneMoreCommit;
    var f := y.frame.value;
    GoodShape(y);
    EventsKeepSubmitted(y, hs);
    var y1 := Act(y, Outside(hs));
    HandedIsPresented(y1);
    assert [Outside(hs), Present(f.index)] == [Outside(hs)] + [Present(f.index)];
    RunStep(y, Outside(hs), [Present(f.index)]);
    RunEnd(y1, Present(f.index));
    SameCommits(y, y1, Act(y1, Present(f.index)), f.image, y1.s.env.fences[f.index].job);
  }

  lemma SameCommits(y: Sys, y1: Sys, y': Sys, image: Option<nat>, job: nat)
    requires y1.s.env.commits == y.s.env.commits && OneMoreCommit(y1, y', image, job)
    ensures OneMoreCommit(y, y', image, job)
  {
  }

  lemma SubmitsWork(y: Sys)
    requires Good(y) && y.blocked.None? && y.frame.Some?
    ensures var y1 := Act(y, SubmitWork);
            && Good(y1) && y1.blocked.None? && y1.frame == y.frame && y1.s.env.commits == y.s.env.commits
            && Submitted(y1.s, y.frame.value.index)
  {
    hide HonestOk, Settled, OwnershipOk, FeedbackOk, PacingOk, SizesOk;
    hide CommitsOk, AllRetiredOk, CurrentBuffersOk, ReleasesOk, SlotOk;
    ActKeepsGood(y, SubmitWork);
  }

  /** The documented cycle always goes through: take a frame, submit, let anything happen, present.
      It makes exactly one commit, of the image that was handed out. */
  lemma CycleCommits(y: Sys, sc: Script, hs: seq<Happening>)
    requires Good(y) && y.blocked.None? && NextFrame(y.s, sc).1.Handed?
    ensures var f := NextFrame(y.s, sc).1.frame;
            exists job ::
              OneMoreCommit(y, Run(y, [WaitFrame(sc), SubmitWork, Outside(hs), Present(f.index)]), f.image, job)
  {
    hide Inv, HonestOk, Settled, NextFrame, OneMoreCommit;
    var f := NextFrame(y.s, sc).1.frame;
    var rest := [Outside(hs), Present(f.index)];
    NextFrameKeepsInv(y.s, sc);
    ActKeepsGood(y, WaitFrame(sc));
    var y1 := Act(y, WaitFrame(sc));
    SubmitsWork(y1);
    var y2 := Act(y1, SubmitWork);
    FrameInHandIsPresented(y2, hs);
    RunStep(y, WaitFrame(sc), [SubmitWork] + rest);
    RunStep(y1, SubmitWork, rest);
    assert [WaitFrame(sc), SubmitWork, Outside(hs), Present(f.index)] == [WaitFrame(sc)] + ([SubmitWork] + rest);
    SameCommits(y, y2, Run(y2, rest), f.image, y2.s.env.fences[f.index].job);
  }
}
