/** Every size the compositor asks for reaches the images: what a list of configures requests, what
    the next granted wait_frame makes of it, and what that means over whole runs. */
module RingSizes {
  import opened Prelude
  import opened Ring
  import opened RingInvariant
  import opened RingSteps
  import opened RingRuns
  import opened RingTheorems
  import opened RingOutcomes
  import opened RingEvents

  // ---- the request ----

  lemma {:induction false} LastSizeConcat(a: seq<Happening>, b: seq<Happening>)
    ensures LastSize(a + b) == if LastSize(b).Some? then LastSize(b) else LastSize(a)
    decreases |b|
  {
    if b == [] {
      assert a + b == a;
    } else {
      assert (a + b)[..|a + b| - 1] == a + b[..|b| - 1];
      LastSizeConcat(a, b[..|b| - 1]);
    }
  }

  // first followed by more, as far as sizes go.
  function Later(first: Option<(nat, nat)>, more: seq<Happening>): Option<(nat, nat)> {
    if LastSize(more).Some? then LastSize(more) else first
  }

  lemma LaterStep(first: Option<(nat, nat)>, hs: seq<Happening>)
    requires hs != []
    ensures Later(first, hs) == Later(Later(first, [hs[0]]), hs[1..])
    ensures Later(first, [hs[0]]) == if AsksSize(hs[0]) then SizeOf(hs[0]) else first
  {
    assert hs == [hs[0]] + hs[1..];
    LastSizeConcat([hs[0]], hs[1..]);
    var one := [hs[0]];
    assert one[..|one| - 1] == [] && one[|one| - 1] == hs[0];
    assert LastSize(one) == if AsksSize(hs[0]) then SizeOf(hs[0]) else LastSize([]);
  }

  /** After any happenings the pending size is the last positive one among them, whatever else
      happens and whatever was pending; with none it stays as it was. */
  lemma {:induction false} LastConfigureWins(s: State, hs: seq<Happening>)
    ensures var s' := HappenAll(s, hs);
            && s'.env.lastConfigure == Later(s.env.lastConfigure, hs)
            && Some((s'.win.pendingWidth, s'.win.pendingHeight))
               == Later(Some((s.win.pendingWidth, s.win.pendingHeight)), hs)
    decreases |hs|
  {
    hide Happen, LastSize, Later;
    if hs == [] {
      NothingLater(s.env.lastConfigure);
      NothingLater(Some((s.win.pendingWidth, s.win.pendingHeight)));
    } else {
      HappenSize(s, hs[0]);
      LaterStep(s.env.lastConfigure, hs);
      LaterStep(Some((s.win.pendingWidth, s.win.pendingHeight)), hs);
      LastConfigureWins(Happen(s, hs[0]), hs[1..]);
    }
  }

  lemma NothingLater(first: Option<(nat, nat)>)
    ensures Later(first, []) == first
  {
  }

  lemma HappenSize(s: State, h: Happening)
    ensures var s' := Happen(s, h);
            && s'.env.lastConfigure == (if AsksSize(h) then SizeOf(h) else s.env.lastConfigure)
            && Some((s'.win.pendingWidth, s'.win.pendingHeight))
               == (if AsksSize(h) then SizeOf(h) else Some((s.win.pendingWidth, s.win.pendingHeight)))
            && (s'.win.configured <==> s.win.configured || h == Wayland(SurfaceConfigure))
            && (s'.win.resizePending <==>
                  s.win.resizePending || (s.win.configured && AsksOther(h, (s.win.width, s.win.height))))
  {
    hide ForgetFeedback, AcquireSignalled;
    if h.Wayland? {
      match h.event
      case FrameDone =>
      case ToplevelConfigure(_, _) =>
      case SurfaceConfigure =>
      case Close =>
      case Presented(_, _, _) =>
      case Discarded(_) =>
    }
  }

  predicate AsksOther(h: Happening, size: (nat, nat)) {
    AsksSize(h) && SizeOf(h) != Some(size)
  }

  // What neither events nor kernel steps change, and that a requested size is never unrequested.
  ghost predicate SameExtent(s: State, s': State) {
    && |s'.win.frames| == |s.win.frames| && s'.win.collectStats == s.win.collectStats
    && s'.win.width == s.win.width && s'.win.height == s.win.height
    && s'.env.announced == s.env.announced
    && (s.env.lastConfigure.Some? ==> s'.env.lastConfigure.Some?)
  }

  // Happening i asks a configured window for another size than it has.
  ghost predicate Requests(s: State, hs: seq<Happening>, i: nat) {
    && i < |hs| && AsksOther(hs[i], (s.win.width, s.win.height))
    && (s.win.configured || Wayland(SurfaceConfigure) in hs[..i])
  }

  /** A resize is requested exactly by a positive size that is not the window's own, once the window
      is configured: not by one it already has, and not undone by going back to it. */
  lemma {:induction false} ResizeRequestedIff(s: State, hs: seq<Happening>)
    ensures HappenAll(s, hs).win.resizePending <==>
              s.win.resizePending || exists i: nat :: Requests(s, hs, i)
    decreases |hs|
  {
    hide Happen, AsksSize, AsksOther;
    if hs != [] {
      var s1, rest := Happen(s, hs[0]), hs[1..];
      HappenSize(s, hs[0]);
      HappenUntouched(s, hs[0]);
      ResizeRequestedIff(s1, rest);
      forall i: nat | i < |rest|
        ensures Requests(s1, rest, i) == Requests(s, hs, i + 1)
      {
        assert hs[..i + 1] == [hs[0]] + rest[..i];
      }
      assert forall i: nat :: i > 0 && Requests(s, hs, i) ==> Requests(s1, rest, i - 1);
      assert Requests(s, hs, 0) == (s.win.configured && AsksOther(hs[0], (s.win.width, s.win.height)));
    }
  }

  // ---- what wait_frame makes of it ----

  lemma {:induction false} LastSizeDelivered(s: State, hs: seq<Happening>)
    ensures LastSize(Delivered(s, hs)) == LastSize(hs)
    decreases |hs|
  {
    hide Happen, LastSize;
    if hs != [] {
      var one := if hs[0].Wayland? && !Deliverable(s, hs[0].event) then [] else [hs[0]];
      LastSizeDelivered(Happen(s, hs[0]), hs[1..]);
      LastSizeConcat(one, Delivered(Happen(s, hs[0]), hs[1..]));
      LastSizeConcat([hs[0]], hs[1..]);
      assert hs == [hs[0]] + hs[1..];
      AddressedAsksNothing(s, hs[0]);
    }
  }

  lemma AddressedAsksNothing(s: State, h: Happening)
    ensures h.Wayland? && !Deliverable(s, h.event) ==> LastSize([h]) == LastSize([])
  {
    assert [h][..0] == [];
  }

  lemma {:induction false} PollLoopSize(s: State, polls: seq<seq<Happening>>)
    ensures var s' := PollLoop(s, polls);
            SameExtent(s, s') && s'.env.lastConfigure == Later(s.env.lastConfigure, Polled(s, polls))
    decreases |polls|
  {
    hide HappenAll, Delivered, LastSize;
    if s.win.frameDue || s.win.closed || polls == [] {
      NothingLater(s.env.lastConfigure);
    } else {
      var s1 := HappenAll(s, polls[0]);
      HappenAllUntouched(s, polls[0]);
      LastConfigureWins(s, polls[0]);
      LastSizeDelivered(s, polls[0]);
      PollLoopSize(s1, polls[1..]);
      LastSizeConcat(Delivered(s, polls[0]), Polled(s1, polls[1..]));
    }
  }

  // Past the frame callback the window has the last size asked for, if any was.
  lemma GrantedSize(s: State)
    requires Inv(s)
    ensures var g := Granted(s);
            && (s.env.lastConfigure.Some? ==> s.env.lastConfigure == Some((g.win.width, g.win.height)))
            && (s.env.lastConfigure.None? ==> SameExtent(s, g))
            && |g.win.frames| == |s.win.frames| && g.win.collectStats == s.win.collectStats
            && g.env.lastConfigure == s.env.lastConfigure
  {
    hide RingOk, OwnershipOk, FeedbackOk, PacingOk, DropFeedbacks, Memory, AllRetired, AllRenewed, UpTo;
    GrantedSameRecord(s);
  }

  lemma ReapSameExtent(s: State, sc: Script)
    requires Inv(s) && Settled(s)
    ensures var s1 := Reaped(s, sc);
            Inv(s1) && Settled(s1) && SameExtent(s, s1) && s1.env.lastConfigure == s.env.lastConfigure
  {
    hide Inv, Settled, ReapFrom;
    ReapSettles(s, sc.reap);
    ReapKeepsInv(s, 0, sc.reap);
  }

  // The state after the first loop, as far as sizes go.
  lemma PolledSize(s: State, sc: Script)
    requires Inv(s) && Settled(s)
    ensures var s2 := AfterPolls(s, sc);
            Inv(s2) && SameExtent(s, s2) && s2.env.lastConfigure == Later(s.env.lastConfigure, PolledIn(s, sc))
  {
    hide Inv, Settled, Reaped, PollLoop, Later;
    ReapSameExtent(s, sc);
    var s1 := Reaped(s, sc);
    if s1.win.presentedOnce {
      PollLoopKeepsInv(s1, sc.polls);
      PollLoopSize(s1, sc.polls);
    } else {
      NothingLater(s.env.lastConfigure);
    }
  }

  // wait_frame never changes the number of slots, and changes the size only to one asked for.
  lemma WaitSize(s: State, sc: Script)
    requires Inv(s) && Settled(s) && RingShape(s)
    ensures var (s', o) := NextFrame(s, sc);
            && |s'.win.frames| == |s.win.frames| && s'.win.collectStats == s.win.collectStats
            && (s'.env.lastConfigure.None? ==> SameExtent(s, s'))
            && (o.Handed? || o.AwaitingRelease? ==>
                  var asked := Later(s.env.lastConfigure, PolledIn(s, sc));
                  asked.Some? ==> asked == Some((s'.win.width, s'.win.height)))
  {
    hide Inv, Settled, ReapFrom, PollLoop, Granted, ReleaseLoop, Later, PolledIn;
    var s2 := AfterPolls(s, sc);
    ReapFromFrame(s, 0, sc.reap);
    PollLoopUntouched(Reaped(s, sc), sc.polls);
    PolledSize(s, sc);
    GrantedSize(s2);
    GrantedFrame(s2);
    ReleaseLoopUntouched(Granted(s2), sc.attempts);
    PollLoopUntouched(Reaped(s, sc), sc.polls);
  }

  /** The next wait_frame that gets past its frame callback gives the window, and every image of the
      ring, the last size that was asked for before or while it waited for the callback. */
  lemma LastSizeReachesImages(s: State, hs: seq<Happening>, sc: Script, i: nat)
    requires Inv(s) && Settled(s) && RingShape(HappenAll(s, hs)) && i < |s.win.frames|
    requires var o := NextFrame(HappenAll(s, hs), sc).1; o.Handed? || o.AwaitingRelease?
    requires LastSize(hs + PolledIn(HappenAll(s, hs), sc)).Some?
    ensures var size := LastSize(hs + PolledIn(HappenAll(s, hs), sc)).value;
            var s' := NextFrame(HappenAll(s, hs), sc).0;
            && (s'.win.width, s'.win.height) == size
            && i < |s'.win.frames| && s'.win.frames[i].image.Some?
            && s'.win.frames[i].image.value < |s'.env.extents|
            && s'.env.extents[s'.win.frames[i].image.value] == size
  {
    hide Inv, Settled, NextFrame, HappenAll, PolledIn, LastSize;
    var s1 := HappenAll(s, hs);
    HappenAllKeepsInv(s, hs);
    HappenAllUntouched(s, hs);
    LastConfigureWins(s, hs);
    LastSizeConcat(hs, PolledIn(s1, sc));
    WaitSize(s1, sc);
    NextFrameKeepsInv(s1, sc);
    CurrentExtent(NextFrame(s1, sc).0, i);
  }

  lemma CurrentExtent(s: State, i: nat)
    requires Inv(s) && i < |s.win.frames|
    ensures var image := s.win.frames[i].image;
            image.Some? && image.value < |s.env.extents| && s.env.extents[image.value] == (s.win.width, s.win.height)
  {
    assert SlotOk(s, i);
  }

  // ---- over runs ----

  // The ring keeps its configured number of slots, and its configured size until one is asked for.
  ghost predicate FromConfig(c: Config, s: State) {
    && |s.win.frames| == c.bufferCount && s.win.collectStats == c.collectStats
    && (s.env.lastConfigure.None? ==> (s.win.width, s.win.height) == (c.width, c.height) && s.env.announced == [])
  }

  lemma PresentSameExtent(s: State, i: nat)
    requires RingShape(s)
    ensures SameExtent(s, CommitFrame(s, i).0)
  {
  }

  lemma ActFromConfig(c: Config, y: Sys, a: Action)
    requires Good(y) && FromConfig(c, y.s)
    ensures FromConfig(c, Act(y, a).s)
  {
    hide Inv, HonestOk, NextFrame, CommitFrame, HappenAll;
    if y.blocked.None? {
      match a
      case WaitFrame(sc) => WaitSize(y.s, sc);
      case SubmitWork =>
      case Present(i) => PresentSameExtent(y.s, i);
      case Outside(hs) => HappenAllUntouched(y.s, hs);
    }
  }

  lemma {:induction false} RunFromConfig(c: Config, y: Sys, actions: seq<Action>)
    requires Good(y) && FromConfig(c, y.s)
    ensures FromConfig(c, Run(y, actions).s)
    decreases |actions|
  {
    hide Inv, HonestOk, Settled, Act, FromConfig;
    if actions != [] {
      ActKeepsGood(y, actions[0]);
      ActFromConfig(c, y, actions[0]);
      RunFromConfig(c, Act(y, actions[0]), actions[1..]);
    }
  }

  lemma FirstSize(c: Config, batches: seq<seq<Happening>>)
    requires Constructed(c, batches)
    ensures FromConfig(c, Construct(c, batches).value)
  {
    hide Inv, CreateMemory, SyncHandles;
    AwaitBooting(BLANK, batches);
  }

  /** In every run the ring has as many slots as were configured. Unless a resize is pending, the
      window's size is the last positive one that any toplevel configure delivered so far asked for,
      and the configured one if there was none. */
  lemma SizeOfRun(c: Config, batches: seq<seq<Happening>>, actions: seq<Action>)
    requires Constructed(c, batches)
    ensures var s, heard := Reach(c, batches, actions).s, Heard(c, batches, actions);
            && |s.win.frames| == c.bufferCount && s.win.collectStats == c.collectStats
            && (LastSize(heard).None? ==>
                  (s.win.width, s.win.height) == (c.width, c.height) && s.env.announced == [] && !s.win.resizePending)
            && (LastSize(heard).Some? && !s.win.resizePending ==>
                  (s.win.width, s.win.height) == LastSize(heard).value)
  {
    hide Good, Run, Heard, LastSize, Construct;
    FirstSize(c, batches);
    ReachSizes(c, batches, actions);
    RunFromConfig(c, Reach(c, batches, []), actions);
    ListenersRecordRun(c, batches, actions);
  }

  lemma ReachSizes(c: Config, batches: seq<seq<Happening>>, actions: seq<Action>)
    requires Constructed(c, batches)
    ensures SizesOk(Reach(c, batches, actions).s)
    ensures Reach(c, batches, []).s == Construct(c, batches).value
    ensures Reach(c, batches, actions) == Run(Reach(c, batches, []), actions)
    ensures Good(Reach(c, batches, []))
  {
    hide AwaitConfigure;
    AwaitBooting(BLANK, batches);
  }
}
