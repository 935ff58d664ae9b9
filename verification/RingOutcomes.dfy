/** When wait_frame returns, and with what: the other half of its safety. */
module RingOutcomes {
  import opened Prelude
  import opened Ring
  import opened RingArithmetic
  import opened RingInvariant
  import opened RingSteps
  import opened RingRuns

  // The state in which wait_frame looks for its frame callback.
  ghost function Reaped(s: State, sc: Script): State {
    if s.win.retired != [] then ReapFrom(s, 0, sc.reap) else s
  }

  // Past the frame callback: the pending resize is applied and announced, the ring is re-armed,
  // and the slot in turn keeps its counter and its release timeline.
  lemma GrantedSlot(s: State)
    requires Inv(s)
    ensures var s' := Granted(s);
            && s'.win == s'.win.(nextFrame := s.win.nextFrame, closed := s.win.closed,
                                 resizePending := false, frameDue := false)
            && |s'.win.frames| == |s.win.frames|
            && s'.win.frames[s.win.nextFrame].counter == s.win.frames[s.win.nextFrame].counter
            && s'.win.frames[s.win.nextFrame].releaseSyncobj == s.win.frames[s.win.nextFrame].releaseSyncobj
            && s'.env.commits == s.env.commits && s.env.released <= s'.env.released
            && s'.env.announced == s.env.announced
                 + (if s.win.resizePending then [(s.win.pendingWidth, s.win.pendingHeight)] else [])
  {
    hide DropFeedbacks, Memory, AllRetired, UpTo, OwnershipOk, FeedbackOk, SizesOk, CommitsOk, AllRetiredOk;
    ResizeEnv(s);
  }

  lemma ReapedOnly(s: State, sc: Script)
    requires Inv(s)
    ensures Inv(Reaped(s, sc)) && ReapOnly(s, Reaped(s, sc))
  {
    hide Inv, ReapFrom;
    ReapKeepsInv(s, 0, sc.reap);
  }

  lemma FirstCounterIsZero(s: State)
    requires RingOk(s) && |s.env.commits| == 0
    ensures s.win.frames[s.win.nextFrame].counter == 0
  {
    assert SlotOk(s, s.win.nextFrame);
    LastCommitOf(0, |s.win.frames|);
  }

  /** Before the first present wait_frame neither blocks nor refuses, even on a closed window. */
  lemma FirstWaitReturns(s: State, sc: Script)
    requires Inv(s) && RingShape(s) && |s.env.commits| == 0
    ensures NextFrame(s, sc).1.Handed?
  {
    hide ReapFrom, Granted, OwnershipOk, FeedbackOk, PacingOk, SizesOk;
    hide CommitsOk, AllRetiredOk, CurrentBuffersOk, ReleasesOk;
    ReapedOnly(s, sc);
    GrantedSlot(Reaped(s, sc));
    FirstCounterIsZero(s);
  }

  /** From the first present on, a closed window makes wait_frame return false at once. */
  lemma ClosedWindowEndsWaiting(s: State, sc: Script)
    requires Inv(s) && RingShape(s) && |s.env.commits| > 0 && s.win.closed
    ensures NextFrame(s, sc) == (Reaped(s, sc), WindowClosed)
  {
    hide ReapFrom, Granted, OwnershipOk, FeedbackOk, PacingOk, SizesOk;
    hide CommitsOk, AllRetiredOk, CurrentBuffersOk, ReleasesOk;
    ReapedOnly(s, sc);
  }

  lemma {:induction false} KernelAllKeepsSignalled(env: Env, es: seq<KernelEvent>, syncobj: Option<nat>, p: nat)
    requires ReleaseSignalled(env, syncobj, p)
    ensures ReleaseSignalled(KernelAll(env, es), syncobj, p)
    decreases |es|
  {
    hide KernelAll;
    KernelAllOnly(env, es);
    var k :| k in env.released && k < |env.commits|
             && env.commits[k].release == syncobj && env.commits[k].releasePoint >= p;
    assert k in KernelAll(env, es).released;
  }

  /** With its frame callback received, an open window and a signalled slot, wait_frame hands the
      slot out as soon as one timed wait does not time out, and has then applied and announced
      exactly the resize that was pending, if any. */
  lemma ReadySlotIsHandedOut(s: State, sc: Script)
    requires Inv(s) && RingShape(s) && (|s.env.commits| > 0 ==> s.win.frameDue) && !s.win.closed
    requires SlotFree(s)
    requires sc.attempts != [] && !sc.attempts[0].probe.timesOut
    ensures var (s', o) := NextFrame(s, sc);
            && o.Handed? && o.frame.index == s.win.nextFrame
            && s'.env.announced == s.env.announced
                 + (if s.win.resizePending then [(s.win.pendingWidth, s.win.pendingHeight)] else [])
  {
    hide ReapFrom, Granted, KernelAll, ReleaseSignalled, RingOk, OwnershipOk, FeedbackOk, PacingOk, SizesOk;
    var s1 := Reaped(s, sc);
    ReapedOnly(s, sc);
    InvShape(s1);
    GrantedSlot(s1);
    var s2 := Granted(s1);
    var fb := s2.win.frames[s2.win.nextFrame];
    if fb.counter > 0 {
      SignalledLater(s.env, s2.env, fb.releaseSyncobj, fb.counter);
      KernelAllKeepsSignalled(s2.env, sc.attempts[0].probe.kernel, fb.releaseSyncobj, fb.counter);
      KernelAllOnly(s2.env, sc.attempts[0].probe.kernel);
    }
    assert PollLoop(s1, sc.polls) == s1 || !s1.win.presentedOnce;
  }

  lemma SignalledLater(e: Env, e': Env, syncobj: Option<nat>, p: nat)
    requires ReleaseSignalled(e, syncobj, p) && e'.commits == e.commits && e.released <= e'.released
    ensures ReleaseSignalled(e', syncobj, p)
  {
  }

  // ---- what a reap destroys ----

  // The compositor has not given the entry's buffer back.
  ghost predicate Waiting(env: Env, fb: FrameSlot) {
    fb.counter > 0 && !ReleaseSignalled(env, fb.releaseSyncobj, fb.counter)
  }

  // The entries whose buffer the compositor has not given back.
  ghost function Unreleased(env: Env, retired: seq<FrameSlot>): seq<FrameSlot> {
    if retired == [] then []
    else if Waiting(env, retired[0]) then [retired[0]] + Unreleased(env, retired[1..])
    else Unreleased(env, retired[1..])
  }

  lemma {:induction false} UnreleasedCarries(e: Env, e': Env, retired: seq<FrameSlot>)
    requires e'.commits == e.commits && e'.released == e.released
    ensures Unreleased(e', retired) == Unreleased(e, retired)
    decreases |retired|
  {
    if retired != [] {
      UnreleasedCarries(e, e', retired[1..]);
    }
  }

  ghost predicate Patient(probes: seq<Probe>, n: nat) {
    n <= |probes| && forall i | 0 <= i < n :: probes[i] == Probe([], false)
  }

  lemma QuietReapEntry(s: State, i: nat)
    requires i < |s.win.retired| && !s.win.retired[i].released
    ensures var (s', kept) := ReapEntry(s, i, Probe([], false));
            && s'.env.commits == s.env.commits && s'.env.released == s.env.released
            && kept == (s.win.retired[i].counter > 0
                        && !ReleaseSignalled(s.env, s.win.retired[i].releaseSyncobj, s.win.retired[i].counter))
            && s'.win.retired == if kept then s.win.retired else Erase(s.win.retired, i)
  {
    hide DestroyEach, RetiredHandles, Erase, ReleaseSignalled;
    DestroyEachOnly(s.env, RetiredHandles(s.win.retired[i]));
    assert KernelAll(s.env, []) == s.env;
  }

  /** When no wait times out and nothing else moves, reaping destroys exactly the entries whose
      release point is signalled or that have none to wait for, and keeps the rest in order. */
  lemma {:induction false} ReapsExactlyReleased(s: State, i: nat, probes: seq<Probe>)
    requires i <= |s.win.retired| && Patient(probes, |s.win.retired| - i)
    requires forall a | 0 <= a < |s.win.retired| :: !s.win.retired[a].released
    ensures ReapFrom(s, i, probes).win.retired == s.win.retired[..i] + Unreleased(s.env, s.win.retired[i..])
    decreases |s.win.retired| - i
  {
    hide ReapEntry, ReleaseSignalled;
    if i < |s.win.retired| {
      var (s1, kept) := ReapEntry(s, i, probes[0]);
      QuietReapEntry(s, i);
      assert Patient(probes[1..], |s.win.retired| - i - 1);
      var rest := s.win.retired[i..];
      assert rest[0] == s.win.retired[i] && rest[1..] == s.win.retired[i + 1..];
      ReapsExactlyReleased(s1, if kept then i + 1 else i, probes[1..]);
      UnreleasedCarries(s.env, s1.env, rest[1..]);
      if kept {
        assert s1.win.retired[..i + 1] == s.win.retired[..i] + [rest[0]];
      } else {
        assert s1.win.retired[..i] == s.win.retired[..i] && s1.win.retired[i..] == rest[1..];
      }
    }
  }

  // ---- ... and when releases arrive while it waits ----

  ghost predicate NeverTimesOut(probes: seq<Probe>, n: nat) {
    n <= |probes| && forall i | 0 <= i < n :: !probes[i].timesOut
  }

  // From e to e' commits have only been released, none made.
  ghost predicate ReleasesGrow(e: Env, e': Env) {
    e'.commits == e.commits && e.released <= e'.released
  }

  lemma WaitingEarlier(e: Env, e': Env, fb: FrameSlot)
    requires ReleasesGrow(e, e') && Waiting(e', fb)
    ensures Waiting(e, fb)
  {
  }

  lemma PromptReapEntry(s: State, i: nat, p: Probe)
    requires i < |s.win.retired| && !s.win.retired[i].released && !p.timesOut
    ensures var (s', kept) := ReapEntry(s, i, p);
            && ReleasesGrow(s.env, s'.env)
            && kept == Waiting(s'.env, s.win.retired[i])
            && s'.win.retired == if kept then s.win.retired else Erase(s.win.retired, i)
  {
    hide DestroyEach, RetiredHandles, Erase, KernelAll;
    var fb := s.win.retired[i];
    KernelAllOnly(s.env, p.kernel);
    DestroyEachOnly(s.env, RetiredHandles(fb));
    DestroyEachOnly(KernelAll(s.env, p.kernel), RetiredHandles(fb));
  }

  // kept lies between the entries unreleased at the end and those unreleased at the start.
  ghost predicate Between(first: Env, last: Env, retired: seq<FrameSlot>, kept: seq<FrameSlot>) {
    IsSubsequence(Unreleased(last, retired), kept) && IsSubsequence(kept, Unreleased(first, retired))
  }

  lemma BetweenKept(first: Env, last: Env, rest: seq<FrameSlot>, kept: seq<FrameSlot>)
    requires rest != [] && Waiting(first, rest[0]) && Between(first, last, rest[1..], kept)
    ensures Between(first, last, rest, [rest[0]] + kept)
  {
    var all, fewer := [rest[0]] + kept, Unreleased(last, rest[1..]);
    assert all[1..] == kept && Unreleased(first, rest)[1..] == Unreleased(first, rest[1..]);
    if Waiting(last, rest[0]) {
      assert Unreleased(last, rest)[1..] == fewer;
    } else {
      SubsequenceGrows(fewer, all);
    }
  }

  lemma BetweenDropped(first: Env, last: Env, rest: seq<FrameSlot>, kept: seq<FrameSlot>)
    requires rest != [] && !Waiting(last, rest[0]) && Between(first, last, rest[1..], kept)
    ensures Between(first, last, rest, kept)
  {
    if Waiting(first, rest[0]) {
      assert Unreleased(first, rest)[1..] == Unreleased(first, rest[1..]);
      SubsequenceGrows(kept, Unreleased(first, rest));
    }
  }

  lemma {:induction false} ReapBetween(first: Env, s: State, i: nat, probes: seq<Probe>)
    requires ReleasesGrow(first, s.env)
    requires i <= |s.win.retired| && NeverTimesOut(probes, |s.win.retired| - i)
    requires forall a | 0 <= a < |s.win.retired| :: !s.win.retired[a].released
    ensures var s' := ReapFrom(s, i, probes);
            && ReleasesGrow(s.env, s'.env)
            && i <= |s'.win.retired| && s'.win.retired[..i] == s.win.retired[..i]
            && Between(first, s'.env, s.win.retired[i..], s'.win.retired[i..])
    decreases |s.win.retired| - i
  {
    hide ReapEntry, Between, Waiting, Unreleased, Erase;
    var s', rest := ReapFrom(s, i, probes), s.win.retired[i..];
    if rest == [] {
      assert s'.win.retired[i..] == [];
      NothingBetween(first);
    } else {
      var (s1, kept) := ReapEntry(s, i, probes[0]);
      PromptReapEntry(s, i, probes[0]);
      ErasedParts(s.win.retired, i);
      assert rest[1..] == s.win.retired[i + 1..];
      ReapBetween(first, s1, if kept then i + 1 else i, probes[1..]);
      if kept {
        var left := s'.win.retired[i + 1..];
        WaitingEarlier(first, s1.env, rest[0]);
        BetweenKept(first, s'.env, rest, left);
        assert s'.win.retired[i..] == [s'.win.retired[..i + 1][i]] + left;
        assert s'.win.retired[..i] == s'.win.retired[..i + 1][..i];
        assert s.win.retired[..i] == s.win.retired[..i + 1][..i];
      } else {
        if Waiting(s'.env, rest[0]) {
          WaitingEarlier(s1.env, s'.env, rest[0]);
        }
        BetweenDropped(first, s'.env, rest, s'.win.retired[i..]);
      }
    }
  }

  lemma NothingBetween(first: Env)
    ensures forall last :: Between(first, last, [], [])
  {
  }

  lemma ErasedParts(xs: seq<FrameSlot>, i: nat)
    requires i < |xs|
    ensures Erase(xs, i)[..i] == xs[..i] && Erase(xs, i)[i..] == xs[i + 1..]
    ensures forall a | 0 <= a < |xs| - 1 :: Erase(xs, i)[a] in xs
  {
  }

  /** When no wait times out, reaping destroys no entry that is still unreleased when it ends and
      keeps none that was released when it began; what is released meanwhile may go either way. */
  lemma ReapsOnlyReleased(s: State, probes: seq<Probe>)
    requires Inv(s) && NeverTimesOut(probes, |s.win.retired|)
    ensures var s' := ReapFrom(s, 0, probes);
            && ReleasesGrow(s.env, s'.env)
            && IsSubsequence(Unreleased(s'.env, s.win.retired), s'.win.retired)
            && IsSubsequence(s'.win.retired, Unreleased(s.env, s.win.retired))
  {
    hide Inv, ReapFrom;
    forall a | 0 <= a < |s.win.retired|
      ensures !s.win.retired[a].released
    {
      RetiredUnmarked(s, a);
    }
    ReapBetween(s.env, s, 0, probes);
    var r, r' := s.win.retired, ReapFrom(s, 0, probes).win.retired;
    assert r[0..] == r && r'[0..] == r';
  }
}
