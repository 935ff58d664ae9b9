/** What a whole wait_frame frees and keeps of the retired memory. */
module RingReap {
  import opened Prelude
  import opened Ring
  import opened RingInvariant
  import opened RingSteps
  import opened RingRuns
  import opened RingTheorems
  import opened RingOutcomes

  // ---- waits that time out ----

  ghost predicate AllTimeOut(probes: seq<Probe>) {
    forall i | 0 <= i < |probes| :: probes[i].timesOut
  }

  // The entries that have a release point to wait for.
  ghost function WithPoint(retired: seq<FrameSlot>): seq<FrameSlot> {
    if retired == [] then []
    else (if retired[0].counter > 0 then [retired[0]] else []) + WithPoint(retired[1..])
  }

  lemma TimedOutEntry(s: State, i: nat, p: Probe)
    requires i < |s.win.retired| && !s.win.retired[i].released && p.timesOut
    ensures var (s', kept) := ReapEntry(s, i, p);
            && kept == (s.win.retired[i].counter > 0)
            && s'.win.retired == if kept then s.win.retired else Erase(s.win.retired, i)
  {
    hide DestroyEach, RetiredHandles, Erase, KernelAll, ReleaseSignalled;
  }

  lemma NextTimesOut(probes: seq<Probe>)
    requires AllTimeOut(probes)
    ensures ProbeOf(probes).timesOut && AllTimeOut(Rest(probes))
  {
  }

  /** A wait that times out frees nothing, signalled or not: only the entries with no point to wait
      for go, and the others keep their order. */
  lemma {:induction false} TimedOutReapKeeps(s: State, i: nat, probes: seq<Probe>)
    requires i <= |s.win.retired| && AllTimeOut(probes)
    requires forall a | 0 <= a < |s.win.retired| :: !s.win.retired[a].released
    ensures ReapFrom(s, i, probes).win.retired == s.win.retired[..i] + WithPoint(s.win.retired[i..])
    decreases |s.win.retired| - i
  {
    hide ReapEntry, ProbeOf, Rest, AllTimeOut, Erase;
    if i < |s.win.retired| {
      var (s1, kept) := ReapEntry(s, i, ProbeOf(probes));
      NextTimesOut(probes);
      TimedOutEntry(s, i, ProbeOf(probes));
      ErasedParts(s.win.retired, i);
      var rest := s.win.retired[i..];
      assert rest[0] == s.win.retired[i] && rest[1..] == s.win.retired[i + 1..];
      TimedOutReapKeeps(s1, if kept then i + 1 else i, Rest(probes));
      if kept {
        assert s.win.retired[..i + 1] == s.win.retired[..i] + [rest[0]];
      }
    }
  }

  // ---- released memory is freed ----

  // The retired list grows only by a whole current generation.
  ghost predicate RetiresCurrent(s: State, s': State) {
    && |s'.win.frames| == |s.win.frames| && Base(s') >= Base(s)
    && s.win.retired <= s'.win.retired
    && forall a | |s.win.retired| <= a < |s'.win.retired| ::
         s'.win.retired[a].image.Some? && s'.win.retired[a].image.value >= Base(s)
  }

  lemma ResizeRetiresCurrent(s: State)
    requires Inv(s)
    ensures RetiresCurrent(s, HandleResize(s))
  {
    hide DropFeedbacks, Memory, UpTo, OwnershipOk, FeedbackOk, PacingOk, SizesOk;
    hide CommitsOk, AllRetiredOk, CurrentBuffersOk, ReleasesOk;
    ResizeEnv(s);
    forall i | 0 <= i < |s.win.frames|
      ensures s.win.frames[i].image == Some(Base(s) + i)
    {
      assert SlotOk(s, i);
    }
  }

  lemma GrantedRetires(s: State)
    requires Inv(s)
    ensures RetiresCurrent(s, Granted(s))
  {
    hide HandleResize, Inv;
    ResizeRetiresCurrent(s);
  }

  lemma WaitRetires(s: State, sc: Script)
    requires Inv(s) && Settled(s) && RingShape(s)
    ensures RetiresCurrent(Reaped(s, sc), NextFrame(s, sc).0)
    ensures Base(Reaped(s, sc)) == Base(s)
  {
    hide Inv, Settled, ReapFrom, PollLoop, Granted, ReleaseLoop;
    var s1 := Reaped(s, sc);
    ReapSettles(s, sc.reap);
    ReapedOnly(s, sc);
    ReapFromFrame(s, 0, sc.reap);
    var s2 := if s1.win.presentedOnce then PollLoop(s1, sc.polls) else s1;
    PollLoopKeepsInv(s1, sc.polls);
    PollLoopUntouched(s1, sc.polls);
    GrantedRetires(s2);
    GrantedFrame(s2);
    ReleaseLoopUntouched(Granted(s2), sc.attempts);
  }

  lemma {:induction false} UnreleasedWait(env: Env, retired: seq<FrameSlot>, fb: FrameSlot)
    requires fb in Unreleased(env, retired)
    ensures fb in retired && Waiting(env, fb)
    decreases |retired|
  {
    hide Waiting;
    if !(Waiting(env, retired[0]) && fb == retired[0]) {
      UnreleasedWait(env, retired[1..], fb);
    }
  }

  // After the reap no entry holds the memory of entry a.
  lemma ReapedLacks(s: State, sc: Script, a: nat, b: nat)
    requires Inv(s) && a < |s.win.retired| && NeverTimesOut(sc.reap, |s.win.retired|)
    requires !Waiting(s.env, s.win.retired[a]) && b < |Reaped(s, sc).win.retired|
    ensures Reaped(s, sc).win.retired[b].image != s.win.retired[a].image
  {
    hide ReapFrom, Waiting, IsSubsequence, Unreleased, OwnershipOk, FeedbackOk, PacingOk, SizesOk, RetiredOk;
    ReapsOnlyReleased(s, sc.reap);
    var fb := Reaped(s, sc).win.retired[b];
    SubsequenceHas(Reaped(s, sc).win.retired, Unreleased(s.env, s.win.retired), b);
    UnreleasedWait(s.env, s.win.retired, fb);
    var d :| 0 <= d < |s.win.retired| && s.win.retired[d] == fb;
    assert d != a;
  }

  lemma RetiredOlder(s: State, a: nat)
    requires Inv(s) && a < |s.win.retired|
    ensures s.win.retired[a].image.Some? && s.win.retired[a].image.value < Base(s)
  {
    assert RetiredOk(s, s.win.retired[a]);
  }

  /** However a wait_frame ends, if its waits on retired entries did not time out it has freed the
      memory of every entry whose buffer had been given back when it was called. */
  lemma ReleasedMemoryIsFreed(s: State, sc: Script, a: nat)
    requires Inv(s) && Settled(s) && RingShape(s) && a < |s.win.retired|
    requires NeverTimesOut(sc.reap, |s.win.retired|) && !Waiting(s.env, s.win.retired[a])
    ensures s.win.retired[a].image.Some?
    ensures var n, live := s.win.retired[a].image.value, NextFrame(s, sc).0.env.live;
            Image(n) !in live && Buffer(n) !in live && Fd(n) !in live
  {
    hide Inv, Settled, NextFrame, Reaped, Waiting;
    var s1, s' := Reaped(s, sc), NextFrame(s, sc).0;
    RetiredOlder(s, a);
    var n := s.win.retired[a].image.value;
    WaitRetires(s, sc);
    NextFrameKeepsInv(s, sc);
    forall b | 0 <= b < |s'.win.retired|
      ensures s'.win.retired[b].image != Some(n)
    {
      if b < |s1.win.retired| {
        ReapedLacks(s, sc, a, b);
        assert s'.win.retired[b] == s1.win.retired[b];
      }
    }
    UnownedIsFreed(s', n);
  }

  lemma UnownedIsFreed(s: State, n: nat)
    requires Inv(s) && n < Base(s)
    requires forall b | 0 <= b < |s.win.retired| :: s.win.retired[b].image != Some(n)
    ensures Image(n) !in s.env.live && Buffer(n) !in s.env.live && Fd(n) !in s.env.live
  {
    hide RingOk, FeedbackOk, PacingOk, SizesOk;
    assert !OwnsMemory(s, n) && !Owns(s, Image(n)) && !Owns(s, Buffer(n)) && !Owns(s, Fd(n));
  }
}
