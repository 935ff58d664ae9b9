/** How often the application may present: once for every frame that wait_frame handed out, over
    whole runs with any events, failed waits and resizes in between. */
module RingHandOuts {
  import opened Ring
  import opened RingInvariant
  import opened RingSteps
  import opened RingRuns
  import opened RingOutcomes
  import opened RingTheorems
  import opened RingPresents

  // The presents made so far, and the one that is still possible.
  function Rights(s: State): nat {
    |s.env.commits| + (if s.win.handedIndex.Some? then 1 else 0)
  }

  // The action is a wait_frame that returns a frame.
  predicate HandsOut(y: Sys, a: Action)
    requires RingShape(y.s)
  {
    y.blocked.None? && a.WaitFrame? && NextFrame(y.s, a.script).1.Handed?
  }

  ghost function HandOuts(y: Sys, actions: seq<Action>): nat
    requires Good(y)
    decreases |actions|
  {
    if actions == [] then 0
    else
      ActKeepsGood(y, actions[0]);
      (if HandsOut(y, actions[0]) then 1 else 0) + HandOuts(Act(y, actions[0]), actions[1..])
  }

  // ---- what a wait does to the right to present ----

  // Neither the handed slot nor the announced sizes have changed.
  ghost predicate SameHanded(s: State, s': State) {
    s'.win.handedIndex == s.win.handedIndex && s'.env.announced == s.env.announced
  }

  // A resize takes the handed frame back, and announces exactly one size.
  lemma GrantedHanded(s: State)
    requires RingShape(s)
    ensures RingShape(Granted(s))
    ensures if s.win.resizePending
            then Granted(s).win.handedIndex.None? && |Granted(s).env.announced| == |s.env.announced| + 1
            else SameHanded(s, Granted(s))
  {
    hide DropFeedbacks, Memory, AllRetired, UpTo;
  }

  lemma UnsuccessfulGrant(s: State, attempts: seq<Attempt>)
    requires RingShape(s) && RingShape(Granted(s)) && !ReleaseLoop(Granted(s), attempts).1.Handed?
    ensures var s' := ReleaseLoop(Granted(s), attempts).0;
            SameHanded(s, s') || s'.win.handedIndex.None?
  {
    hide Granted, ReleaseLoop;
    GrantedHanded(s);
    ReleaseLoopUntouched(Granted(s), attempts);
  }

  /** A wait_frame that returns no frame, or blocks, leaves the frame in hand as it was. If it
      resized the ring on the way, there was no frame in hand: the resize takes none away. */
  lemma UnsuccessfulWait(s: State, sc: Script)
    requires Inv(s) && Settled(s) && RingShape(s) && !NextFrame(s, sc).1.Handed?
    ensures var s' := NextFrame(s, sc).0;
            && s'.win.handedIndex == s.win.handedIndex
            && (s'.env.announced != s.env.announced ==> s'.win.handedIndex.None?)
  {
    hide Inv, Settled, ReapFrom, PollLoop, Granted, ReleaseLoop;
    var s1 := if s.win.retired != [] then ReapFrom(s, 0, sc.reap) else s;
    ReapKeepsInv(s, 0, sc.reap);
    ReapFromFrame(s, 0, sc.reap);
    ReapSettles(s, sc.reap);
    InvShape(s1);
    if !s1.win.presentedOnce {
      FirstWaitReturns(s, sc);
    } else {
      var s2 := PollLoop(s1, sc.polls);
      PollLoopUntouched(s1, sc.polls);
      PollLoopKeepsInv(s1, sc.polls);
      if s2.win.frameDue && !s2.win.closed {
        DueIsNotHanded(s2);
        GrantedFrame(s2);
        UnsuccessfulGrant(s2, sc.attempts);
      }
    }
  }

  lemma DueIsNotHanded(s: State)
    requires Inv(s) && s.win.frameDue
    ensures s.win.handedIndex.None?
  {
  }

  /** Once something has been presented, wait_frame does not get past a frame in hand: it closes or
      waits for a frame callback, and leaves that frame presentable. */
  lemma FrameInHandBlocks(s: State, sc: Script)
    requires Inv(s) && Settled(s) && RingShape(s) && |s.env.commits| > 0 && s.win.handedIndex.Some?
    ensures var (s', o) := NextFrame(s, sc);
            && (o.AwaitingFrame? || o.WindowClosed?) && SameHanded(s, s')
            && RingShape(s') && forall i: nat :: CommitFrame(s', i).1 == CommitFrame(s, i).1
  {
    hide CommitFrame, Inv, Settled, ReapFrom, PollLoop, Granted, ReleaseLoop;
    var s1 := if s.win.retired != [] then ReapFrom(s, 0, sc.reap) else s;
    ReapKeepsInv(s, 0, sc.reap);
    ReapFromFrame(s, 0, sc.reap);
    ReapSettles(s, sc.reap);
    InvShape(s1);
    var s2 := PollLoop(s1, sc.polls);
    PollLoopUntouched(s1, sc.polls);
    PollLoopKeepsInv(s1, sc.polls);
    if s2.win.frameDue {
      DueIsNotHanded(s2);
    }
    NextFrameKeepsInv(s, sc);
    SamePresents(s, NextFrame(s, sc).0);
  }

  lemma SamePresents(s: State, s': State)
    requires Inv(s) && RingShape(s) && Inv(s') && RingShape(s')
    requires s'.win.handedIndex == s.win.handedIndex && s'.env.fences == s.env.fences
    ensures forall i: nat :: CommitFrame(s', i).1 == CommitFrame(s, i).1
  {
    hide Inv, CommitFrame;
    forall i: nat
      ensures CommitFrame(s', i).1 == CommitFrame(s, i).1
    {
      PresentAcceptedIff(s, i);
      PresentAcceptedIff(s', i);
    }
  }

  // ---- what any action does to it ----

  // Only before the first present can wait_frame hand out a frame over one still in hand.
  predicate HandsOutAgain(y: Sys, a: Action)
    requires RingShape(y.s)
  {
    HandsOut(y, a) && y.s.env.commits == [] && y.s.win.handedIndex.Some?
  }

  // Presents are never undone; each uses up a right to present, which only a hand-out grants.
  ghost predicate RightsStep(y: Sys, a: Action)
    requires RingShape(y.s)
  {
    var y' := Act(y, a);
    && y.s.env.commits <= y'.s.env.commits
    && Rights(y'.s) == Rights(y.s) + (if HandsOut(y, a) && !HandsOutAgain(y, a) then 1 else 0)
  }

  lemma WaitRights(y: Sys, sc: Script)
    requires Good(y) && y.blocked.None?
    ensures RightsStep(y, WaitFrame(sc))
  {
    hide Inv, NextFrame, HonestOk, Settled;
    NextFrameKeepsInv(y.s, sc);
    if !NextFrame(y.s, sc).1.Handed? {
      UnsuccessfulWait(y.s, sc);
    } else if y.s.env.commits != [] && y.s.win.handedIndex.Some? {
      FrameInHandBlocks(y.s, sc);
      assert false;
    }
  }

  lemma PresentRights(y: Sys, i: nat)
    requires RingShape(y.s) && y.blocked.None?
    ensures RightsStep(y, Present(i))
  {
    hide CommitFrame, NextFrame;
    CommitRights(y.s, i);
  }

  lemma CommitRights(s: State, i: nat)
    requires RingShape(s)
    ensures var s' := CommitFrame(s, i).0;
            s.env.commits <= s'.env.commits && Rights(s') == Rights(s)
  {
  }

  lemma ActRights(y: Sys, a: Action)
    requires Good(y)
    ensures RightsStep(y, a)
  {
    hide Inv, NextFrame, CommitFrame, HappenAll, HonestOk, Settled;
    if y.blocked.None? {
      match a
      case WaitFrame(sc) => WaitRights(y, sc);
      case SubmitWork =>
      case Present(i) => PresentRights(y, i);
      case Outside(hs) =>
        HappenAllUntouched(y.s, hs);
    }
  }

  lemma {:induction false} RunRights(y: Sys, actions: seq<Action>)
    requires Good(y)
    ensures y.s.env.commits <= Run(y, actions).s.env.commits
    ensures Rights(Run(y, actions).s) <= Rights(y.s) + HandOuts(y, actions)
    decreases |actions|
  {
    hide Inv, HonestOk, Settled, Act, Rights, HandsOut;
    if actions != [] {
      ActKeepsGood(y, actions[0]);
      ActRights(y, actions[0]);
      RunRights(Act(y, actions[0]), actions[1..]);
    }
  }

  /** Once something has been presented, no hand-out is lost: presents and the frame in hand grow
      by exactly the frames handed out, in any run. */
  lemma {:induction false} HandOutsConserved(y: Sys, actions: seq<Action>)
    requires Good(y) && y.s.env.commits != []
    ensures Rights(Run(y, actions).s) == Rights(y.s) + HandOuts(y, actions)
    decreases |actions|
  {
    hide Inv, HonestOk, Settled, Act, Rights, HandsOut;
    if actions != [] {
      ActKeepsGood(y, actions[0]);
      ActRights(y, actions[0]);
      HandOutsConserved(Act(y, actions[0]), actions[1..]);
    }
  }

  /** In every run, presents and the frame still to be presented never outnumber the frames that
      were handed out. */
  lemma PresentsAreHandedOut(c: Config, batches: seq<seq<Happening>>, actions: seq<Action>)
    requires Constructed(c, batches)
    ensures var start := Reach(c, batches, []);
            Rights(Reach(c, batches, actions).s) <= HandOuts(start, actions)
  {
    hide Good, HandOuts;
    FirstRights(c, batches);
    RunRights(Reach(c, batches, []), actions);
  }

  lemma FirstRights(c: Config, batches: seq<seq<Happening>>)
    requires Constructed(c, batches)
    ensures Rights(Reach(c, batches, []).s) == 0
    ensures forall actions :: Reach(c, batches, actions) == Run(Reach(c, batches, []), actions)
  {
    AwaitBooting(BLANK, batches);
  }

  /** With no frame in hand, nothing is presented until wait_frame hands out the next one. */
  lemma NoHandOutNoPresent(y: Sys, actions: seq<Action>)
    requires Good(y) && y.s.win.handedIndex.None?
    requires HandOuts(y, actions) == 0
    ensures Run(y, actions).s.env.commits == y.s.env.commits
  {
    hide Good, HandOuts;
    RunRights(y, actions);
  }

  /** A frame in hand gives one present, whatever else is done, until wait_frame hands out the next
      one; after that present, none is left. */
  lemma PresentedOncePerHandOut(y: Sys, actions: seq<Action>)
    requires Good(y) && HandOuts(y, actions) == 0
    ensures var y' := Run(y, actions);
            && |y'.s.env.commits| <= |y.s.env.commits| + 1
            && (|y'.s.env.commits| > |y.s.env.commits| ==> y'.s.win.handedIndex.None?)
  {
    hide Good, HandOuts;
    RunRights(y, actions);
  }

  /** A wait_frame that resized the ring but returned no frame leaves none to present. */
  lemma ResizedWithoutHandOut(y: Sys, sc: Script, actions: seq<Action>)
    requires Good(y) && y.blocked.None?
    requires NextFrame(y.s, sc).0.env.announced != y.s.env.announced
    requires HandOuts(y, [WaitFrame(sc)] + actions) == 0
    ensures Run(y, [WaitFrame(sc)] + actions).s.env.commits == y.s.env.commits
  {
    hide Inv, NextFrame, HonestOk;
    ActKeepsGood(y, WaitFrame(sc));
    assert ([WaitFrame(sc)] + actions)[1..] == actions;
    UnsuccessfulWait(y.s, sc);
    NextFrameKeepsInv(y.s, sc);
    NoHandOutNoPresent(Act(y, WaitFrame(sc)), actions);
  }
}
