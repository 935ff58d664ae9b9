/** What the listeners record, measured against the bare list of what was delivered: closing, sizes,
    statistics and frame callbacks, over whole runs. */
module RingEvents {
  import opened Prelude
  import opened Stats
  import opened Ring
  import opened RingInvariant
  import opened RingSteps
  import opened RingRuns
  import opened RingTheorems
  import opened RingOutcomes

  // ---- what a list of happenings says by itself ----

  // The last positive size that a toplevel configure asks for.
  function LastSize(hs: seq<Happening>): Option<(nat, nat)>
    decreases |hs|
  {
    if hs == [] then None
    else if AsksSize(hs[|hs| - 1]) then SizeOf(hs[|hs| - 1])
    else LastSize(hs[..|hs| - 1])
  }

  predicate AsksSize(h: Happening) {
    h.Wayland? && h.event.ToplevelConfigure? && h.event.width > 0 && h.event.height > 0
  }

  function SizeOf(h: Happening): Option<(nat, nat)>
    requires AsksSize(h)
  {
    Some((h.event.width, h.event.height))
  }

  // The presentation times reported, in order.
  function Samples(hs: seq<Happening>): seq<Sample>
    decreases |hs|
  {
    if hs == [] then [] else
      var h, earlier := hs[|hs| - 1], Samples(hs[..|hs| - 1]);
      if h.Wayland? && h.event.Presented? then earlier + [Sample(TvNs(h.event.time), h.event.refresh)] else earlier
  }

  function Discards(hs: seq<Happening>): nat
    decreases |hs|
  {
    if hs == [] then 0 else
      var h, earlier := hs[|hs| - 1], Discards(hs[..|hs| - 1]);
      if h.Wayland? && h.event.Discarded? then earlier + 1 else earlier
  }

  function FrameDones(hs: seq<Happening>): nat
    decreases |hs|
  {
    if hs == [] then 0 else FrameDones(hs[..|hs| - 1]) + if hs[|hs| - 1] == Wayland(FrameDone) then 1 else 0
  }

  // ---- what was delivered ----

  // Of what happens, everything but the events addressed to objects that no longer exist.
  ghost function Delivered(s: State, hs: seq<Happening>): seq<Happening>
    decreases |hs|
  {
    if hs == [] then []
    else (if hs[0].Wayland? && !Deliverable(s, hs[0].event) then [] else [hs[0]])
         + Delivered(Happen(s, hs[0]), hs[1..])
  }

  // The fields that only listeners write hold exactly what was delivered.
  ghost predicate Records(s: State, heard: seq<Happening>) {
    && (s.win.closed <==> Wayland(Close) in heard)
    && (s.win.configured <==> Wayland(SurfaceConfigure) in heard)
    && s.env.lastConfigure == LastSize(heard)
    && (s.win.pendingWidth, s.win.pendingHeight) == LastSize(heard).GetOr((0, 0))
    && s.win.stats == Streamed(Samples(heard)).(discarded := Discards(heard))
    && s.env.frameDones == FrameDones(heard)
  }

  ghost predicate SameRecord(s: State, s': State) {
    && s'.win.closed == s.win.closed && s'.win.configured == s.win.configured
    && s'.env.lastConfigure == s.env.lastConfigure
    && s'.win.pendingWidth == s.win.pendingWidth && s'.win.pendingHeight == s.win.pendingHeight
    && s'.win.stats == s.win.stats && s'.env.frameDones == s.env.frameDones
  }

  lemma OneMore(heard: seq<Happening>, h: Happening)
    ensures var all := heard + [h];
            && LastSize(all) == (if AsksSize(h) then SizeOf(h) else LastSize(heard))
            && Samples(all) == Samples(heard)
                 + (if h.Wayland? && h.event.Presented? then [Sample(TvNs(h.event.time), h.event.refresh)] else [])
            && Discards(all) == Discards(heard) + (if h.Wayland? && h.event.Discarded? then 1 else 0)
            && FrameDones(all) == FrameDones(heard) + (if h == Wayland(FrameDone) then 1 else 0)
  {
    assert (heard + [h])[..|heard + [h]| - 1] == heard;
  }

  lemma OneMoreSample(samples: seq<Sample>, x: Sample)
    ensures Streamed(samples + [x]) == Accumulate(Streamed(samples), x.tvNs, x.refresh)
    ensures Streamed(samples).discarded == 0
  {
    StreamedLast(samples);
    assert (samples + [x])[..|samples + [x]| - 1] == samples;
  }

  lemma HappenRecords(s: State, h: Happening, heard: seq<Happening>)
    requires Records(s, heard)
    ensures Records(Happen(s, h), heard + (if h.Wayland? && !Deliverable(s, h.event) then [] else [h]))
  {
    hide LastSize, Samples, Discards, FrameDones, Streamed, TvNs, ForgetFeedback;
    if h.Wayland? && !Deliverable(s, h.event) {
      assert heard + [] == heard;
    } else {
      OneMore(heard, h);
      if h.Wayland? && h.event.Presented? {
        OneMoreSample(Samples(heard), Sample(TvNs(h.event.time), h.event.refresh));
      } else {
        assert Samples(heard) + [] == Samples(heard);
      }
    }
  }

  lemma {:induction false} HappenAllRecords(s: State, hs: seq<Happening>, heard: seq<Happening>)
    requires Records(s, heard)
    ensures Records(HappenAll(s, hs), heard + Delivered(s, hs))
    decreases |hs|
  {
    hide Records, Happen;
    if hs == [] {
      assert heard + [] == heard;
    } else {
      var one := if hs[0].Wayland? && !Deliverable(s, hs[0].event) then [] else [hs[0]];
      HappenRecords(s, hs[0], heard);
      HappenAllRecords(Happen(s, hs[0]), hs[1..], heard + one);
      assert heard + (one + Delivered(Happen(s, hs[0]), hs[1..]))
          == heard + one + Delivered(Happen(s, hs[0]), hs[1..]);
    }
  }

  // ---- what a wait_frame hears ----

  ghost function Polled(s: State, polls: seq<seq<Happening>>): seq<Happening>
    decreases |polls|
  {
    if s.win.frameDue || s.win.closed || polls == [] then []
    else Delivered(s, polls[0]) + Polled(HappenAll(s, polls[0]), polls[1..])
  }

  // The failed waits' drains, up to the one that closes the window.
  ghost function Drained(s: State, attempts: seq<Attempt>): seq<Happening>
    requires RingShape(s)
    decreases |attempts|
  {
    var fb := s.win.frames[s.win.nextFrame];
    if fb.counter == 0 || attempts == [] then [] else
      var (s1, ready) := WaitReleasePoint(s, fb.releaseSyncobj, fb.counter, attempts[0].probe);
      if ready then [] else
        var s2 := HappenAll(s1, attempts[0].drained);
        HappenAllUntouched(s1, attempts[0].drained);
        Delivered(s1, attempts[0].drained) + if s2.win.closed then [] else Drained(s2, attempts[1..])
  }

  // What the first loop delivers, if there is one.
  ghost function PolledIn(s: State, sc: Script): seq<Happening> {
    var s1 := Reaped(s, sc);
    if s1.win.presentedOnce then Polled(s1, sc.polls) else []
  }

  ghost function AfterPolls(s: State, sc: Script): State {
    var s1 := Reaped(s, sc);
    if s1.win.presentedOnce then PollLoop(s1, sc.polls) else s1
  }

  ghost function WaitHears(s: State, sc: Script): seq<Happening>
    requires RingShape(s)
  {
    var s2 := AfterPolls(s, sc);
    ReapFromFrame(s, 0, sc.reap);
    PollLoopUntouched(Reaped(s, sc), sc.polls);
    GrantedFrame(s2);
    PolledIn(s, sc)
    + if s2.win.presentedOnce && (s2.win.closed || !s2.win.frameDue) then [] else Drained(Granted(s2), sc.attempts)
  }

  lemma {:induction false} PollLoopRecords(s: State, polls: seq<seq<Happening>>, heard: seq<Happening>)
    requires Records(s, heard)
    ensures Records(PollLoop(s, polls), heard + Polled(s, polls))
    decreases |polls|
  {
    hide HappenAll, Records, Delivered;
    if s.win.frameDue || s.win.closed || polls == [] {
      assert heard + [] == heard;
    } else {
      var one, s1 := Delivered(s, polls[0]), HappenAll(s, polls[0]);
      HappenAllRecords(s, polls[0], heard);
      PollLoopRecords(s1, polls[1..], heard + one);
      assert heard + (one + Polled(s1, polls[1..])) == heard + one + Polled(s1, polls[1..]);
    }
  }

  lemma SameRecordRecords(s: State, s': State, heard: seq<Happening>)
    requires Records(s, heard) && SameRecord(s, s')
    ensures Records(s', heard)
  {
  }

  lemma ProbeSameRecord(s: State, es: seq<KernelEvent>)
    ensures SameRecord(s, s.(env := KernelAll(s.env, es)))
  {
    hide KernelAll;
    KernelAllOnly(s.env, es);
  }

  lemma HandOutRecords(s: State, heard: seq<Happening>)
    requires RingShape(s) && Records(s, heard)
    ensures Records(HandOut(s).0, heard)
  {
  }

  lemma {:induction false} ReleaseLoopRecords(s: State, attempts: seq<Attempt>, heard: seq<Happening>)
    requires RingShape(s) && Records(s, heard)
    ensures Records(ReleaseLoop(s, attempts).0, heard + Drained(s, attempts))
    decreases |attempts|
  {
    hide HappenAll, KernelAll, ReleaseSignalled, Records, Delivered, SameRecord, HandOut;
    var fb := s.win.frames[s.win.nextFrame];
    if fb.counter == 0 || attempts == [] {
      assert heard + [] == heard;
      HandOutRecords(s, heard);
    } else {
      var (s1, ready) := WaitReleasePoint(s, fb.releaseSyncobj, fb.counter, attempts[0].probe);
      ProbeSameRecord(s, attempts[0].probe.kernel);
      SameRecordRecords(s, s1, heard);
      if ready {
        assert heard + [] == heard;
        HandOutRecords(s1, heard);
      } else {
        var s2, one := HappenAll(s1, attempts[0].drained), Delivered(s1, attempts[0].drained);
        HappenAllUntouched(s1, attempts[0].drained);
        HappenAllRecords(s1, attempts[0].drained, heard);
        if s2.win.closed {
          assert one + [] == one;
        } else {
          ReleaseLoopRecords(s2, attempts[1..], heard + one);
          assert heard + (one + Drained(s2, attempts[1..])) == heard + one + Drained(s2, attempts[1..]);
        }
      }
    }
  }

  lemma {:induction false} ReapSameRecord(s: State, i: nat, probes: seq<Probe>)
    ensures SameRecord(s, ReapFrom(s, i, probes))
    decreases |s.win.retired| - i
  {
    hide ReapEntry;
    if i < |s.win.retired| {
      var (s1, kept) := ReapEntry(s, i, ProbeOf(probes));
      ReapEntryOnly(s, i, ProbeOf(probes));
      ReapSameRecord(s1, if kept then i + 1 else i, Rest(probes));
    }
  }

  lemma GrantedSameRecord(s: State)
    ensures SameRecord(s, Granted(s))
  {
    hide DropFeedbacks, Memory, AllRetired, AllRenewed, UpTo;
  }

  lemma WaitRecords(s: State, sc: Script, heard: seq<Happening>)
    requires RingShape(s) && Records(s, heard)
    ensures Records(NextFrame(s, sc).0, heard + WaitHears(s, sc))
  {
    hide ReapFrom, PollLoop, Granted, ReleaseLoop, Records, Polled, Drained;
    var s1, s2 := Reaped(s, sc), AfterPolls(s, sc);
    ReapSameRecord(s, 0, sc.reap);
    SameRecordRecords(s, s1, heard);
    ReapFromFrame(s, 0, sc.reap);
    PollLoopUntouched(s1, sc.polls);
    var polled := heard + PolledIn(s, sc);
    if s1.win.presentedOnce {
      PollLoopRecords(s1, sc.polls, heard);
      PollLoopUntouched(s1, sc.polls);
    } else {
      assert polled == heard;
    }
    if s2.win.presentedOnce && (s2.win.closed || !s2.win.frameDue) {
      assert heard + WaitHears(s, sc) == polled;
    } else {
      GrantedSameRecord(s2);
      GrantedFrame(s2);
      SameRecordRecords(s2, Granted(s2), polled);
      ReleaseLoopRecords(Granted(s2), sc.attempts, polled);
      assert heard + WaitHears(s, sc) == polled + Drained(Granted(s2), sc.attempts);
    }
  }

  // ---- over runs ----

  ghost function ActHears(y: Sys, a: Action): seq<Happening>
    requires RingShape(y.s)
  {
    if y.blocked.Some? then [] else
      match a
      case WaitFrame(sc) => WaitHears(y.s, sc)
      case Outside(hs) => Delivered(y.s, hs)
      case _ => []
  }

  ghost function RunHears(y: Sys, actions: seq<Action>): seq<Happening>
    requires Good(y)
    decreases |actions|
  {
    if actions == [] then []
    else
      ActKeepsGood(y, actions[0]);
      ActHears(y, actions[0]) + RunHears(Act(y, actions[0]), actions[1..])
  }

  ghost function BootHears(s: State, batches: seq<seq<Happening>>): seq<Happening>
    decreases |batches|
  {
    if s.win.configured || s.win.closed || batches == [] then []
    else Delivered(s, batches[0]) + BootHears(HappenAll(s, batches[0]), batches[1..])
  }

  // Everything delivered to the window since it began to be constructed.
  ghost function Heard(c: Config, batches: seq<seq<Happening>>, actions: seq<Action>): seq<Happening>
    requires Constructed(c, batches)
  {
    BootHears(BLANK, batches) + RunHears(Reach(c, batches, []), actions)
  }

  lemma PresentSameRecord(s: State, i: nat)
    requires RingShape(s)
    ensures SameRecord(s, CommitFrame(s, i).0)
  {
  }

  lemma ActRecords(y: Sys, a: Action, heard: seq<Happening>)
    requires Good(y) && Records(y.s, heard)
    ensures Records(Act(y, a).s, heard + ActHears(y, a))
  {
    hide Good, Records, NextFrame, WaitHears, CommitFrame, HappenAll, Delivered;
    GoodShape(y);
    assert heard + [] == heard;
    if y.blocked.None? {
      match a
      case WaitFrame(sc) => WaitRecords(y.s, sc, heard);
      case Outside(hs) => HappenAllRecords(y.s, hs, heard);
      case SubmitWork => SameRecordRecords(y.s, Act(y, a).s, heard);
      case Present(i) =>
        PresentSameRecord(y.s, i);
        SameRecordRecords(y.s, Act(y, a).s, heard);
    }
  }

  lemma {:induction false} RunRecords(y: Sys, actions: seq<Action>, heard: seq<Happening>)
    requires Good(y) && Records(y.s, heard)
    ensures Records(Run(y, actions).s, heard + RunHears(y, actions))
    decreases |actions|
  {
    hide Inv, HonestOk, Settled, Act, Records, ActHears;
    if actions == [] {
      assert heard + [] == heard;
    } else {
      var y1, one := Act(y, actions[0]), ActHears(y, actions[0]);
      ActKeepsGood(y, actions[0]);
      ActRecords(y, actions[0], heard);
      RunRecords(y1, actions[1..], heard + one);
      assert heard + (one + RunHears(y1, actions[1..])) == heard + one + RunHears(y1, actions[1..]);
    }
  }

  lemma {:induction false} BootRecords(s: State, batches: seq<seq<Happening>>, heard: seq<Happening>)
    requires Records(s, heard)
    ensures Records(AwaitConfigure(s, batches), heard + BootHears(s, batches))
    decreases |batches|
  {
    hide HappenAll, Records, Delivered;
    if s.win.configured || s.win.closed || batches == [] {
      assert heard + [] == heard;
    } else {
      var one, s1 := Delivered(s, batches[0]), HappenAll(s, batches[0]);
      HappenAllRecords(s, batches[0], heard);
      BootRecords(s1, batches[1..], heard + one);
      assert heard + (one + BootHears(s1, batches[1..])) == heard + one + BootHears(s1, batches[1..]);
    }
  }

  lemma BlankRecords()
    ensures Records(BLANK, [])
  {
  }

  /** In every run the window is closed if and only if a close was delivered; its pending size is
      the last positive one configured; its statistics are those of the reported presentation times,
      with each discard counted; and no frame callback goes unnoticed. */
  lemma ListenersRecordRun(c: Config, batches: seq<seq<Happening>>, actions: seq<Action>)
    requires Constructed(c, batches)
    ensures Records(Reach(c, batches, actions).s, Heard(c, batches, actions))
  {
    hide Records, Good, Inv, RunHears, AwaitConfigure;
    var booted := AwaitConfigure(BLANK, batches);
    BlankRecords();
    BootRecords(BLANK, batches, []);
    assert [] + BootHears(BLANK, batches) == BootHears(BLANK, batches);
    SameRecordRecords(booted, CreateFramebuffers(booted, c), BootHears(BLANK, batches));
    AwaitBooting(BLANK, batches);
    RunRecords(Reach(c, batches, []), actions, BootHears(BLANK, batches));
  }
}
