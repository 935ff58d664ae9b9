/** The destructor frees every remaining handle of the ring exactly once - except feedback objects
    that were unanswered when their slot was committed again. */
module RingTeardown {
  import opened Prelude
  import opened Ring
  import opened RingInvariant
  import opened RingSteps
  import opened RingRuns

  // Every handle in rs, once each, and nothing else.
  lemma {:induction false} DestroyEachFrees(env: Env, rs: seq<Resource>)
    requires forall a | 0 <= a < |rs| :: rs[a] in env.live
    requires forall a, b | 0 <= a < b < |rs| :: rs[a] != rs[b]
    ensures DestroyEach(env, rs).doubleFrees == env.doubleFrees
    ensures forall r :: r in DestroyEach(env, rs).live <==> r in env.live && r !in rs
    decreases |rs|
  {
    hide InUse;
    if rs != [] {
      var e := Destroy(env, rs[0]);
      forall a | 0 <= a < |rs[1..]|
        ensures rs[1..][a] in e.live
      {
        assert rs[1..][a] == rs[a + 1] && rs[0] != rs[a + 1];
      }
      DestroyEachFrees(e, rs[1..]);
      assert rs == [rs[0]] + rs[1..];
    }
  }

  ghost predicate IsMemory(r: Resource, n: nat) {
    r == Image(n) || r == Buffer(n) || r == Fd(n)
  }

  // Complete entries in increasing creation order.
  ghost predicate InOrder(retired: seq<FrameSlot>) {
    && (forall a | 0 <= a < |retired| ::
          retired[a].image.Some? && retired[a].image == retired[a].buffer == retired[a].dmaBufFd)
    && (forall a, b | 0 <= a < b < |retired| :: retired[a].image.value < retired[b].image.value)
  }

  ghost predicate RetiredMemory(retired: seq<FrameSlot>, r: Resource)
    requires InOrder(retired)
  {
    exists a | 0 <= a < |retired| :: IsMemory(r, retired[a].image.value)
  }

  // What the first entry owns, and what the others do.
  lemma FirstRetired(retired: seq<FrameSlot>)
    requires InOrder(retired) && retired != []
    ensures InOrder(retired[1..])
    ensures var n := retired[0].image.value;
            && RetiredHandles(retired[0]) == [Buffer(n), Image(n), Fd(n)]
            && (forall r :: r in RetiredHandles(retired[0]) <==> IsMemory(r, n))
            && (forall r :: RetiredMemory(retired, r) <==> IsMemory(r, n) || RetiredMemory(retired[1..], r))
            && (forall r | IsMemory(r, n) :: !RetiredMemory(retired[1..], r))
  {
    var n := retired[0].image.value;
    assert RetiredHandles(retired[0]) == [Buffer(n), Image(n), Fd(n)];
    assert forall a | 0 < a < |retired| :: retired[a] == retired[1..][a - 1];
    assert forall a | 0 <= a < |retired| - 1 :: retired[1..][a] == retired[a + 1];
  }

  lemma {:induction false} TearRetiredFrees(env: Env, retired: seq<FrameSlot>)
    requires InOrder(retired)
    requires forall r :: RetiredMemory(retired, r) ==> r in env.live
    ensures var e := TearRetired(env, retired);
            && e.doubleFrees == env.doubleFrees && e.liveFeedbacks == env.liveFeedbacks
            && forall r :: r in e.live <==> r in env.live && !RetiredMemory(retired, r)
    decreases |retired|
  {
    hide DestroyEach, InOrder, RetiredMemory, RetiredHandles, IsMemory;
    if retired == [] {
      NothingRetired();
    } else {
      FirstRetired(retired);
      var rs := RetiredHandles(retired[0]);
      assert forall a | 0 <= a < |rs| :: rs[a] in rs;
      DestroyEachFrees(env, rs);
      DestroyEachOnly(env, rs);
      TearRetiredFrees(DestroyEach(env, rs), retired[1..]);
    }
  }

  lemma NothingRetired()
    ensures InOrder([]) && forall r :: !RetiredMemory([], r)
  {
  }

  // The handles of slots first..limit-1 when the ring's images are numbered from `base`.
  ghost predicate SlotsOwn(base: int, first: int, limit: int, r: Resource) {
    match r
    case Image(n) => base + first <= n < base + limit
    case Buffer(n) => base + first <= n < base + limit
    case Fd(n) => base + first <= n < base + limit
    case Syncobj(n) => 2 * first <= n < 2 * limit
    case Timeline(n) => 2 * first <= n < 2 * limit
    case Fence(n) => first <= n < limit
    case Callback(_) => false
  }

  ghost predicate SlotIds(fb: FrameSlot, base: int, i: nat) {
    && base + i >= 0
    && fb.image == fb.buffer == fb.dmaBufFd == Some(base + i)
    && fb.acquireSyncobj == fb.acquireTimeline == Some(2 * i)
    && fb.releaseSyncobj == fb.releaseTimeline == Some(2 * i + 1)
    && fb.renderFence == Some(i)
  }

  lemma SlotHandlesAre(fb: FrameSlot, base: int, i: nat)
    requires SlotIds(fb, base, i)
    ensures forall r :: r in SlotHandles(fb) <==> SlotsOwn(base, i, i + 1, r)
    ensures forall a, b | 0 <= a < b < |SlotHandles(fb)| :: SlotHandles(fb)[a] != SlotHandles(fb)[b]
  {
    var n := base + i;
    assert SlotHandles(fb) == [Buffer(n), Timeline(2 * i), Timeline(2 * i + 1), Syncobj(2 * i),
                               Syncobj(2 * i + 1), Fd(n), Fence(i), Image(n)];
  }

  // The feedback objects the slots refer to.
  ghost predicate Referenced(frames: seq<FrameSlot>, f: nat) {
    exists i | 0 <= i < |frames| :: frames[i].presentFeedback == Some(f)
  }

  // Slots first.. of the ring, each with its own live handles and feedback object.
  ghost predicate Tearable(env: Env, frames: seq<FrameSlot>, base: int, first: nat) {
    && (forall i | 0 <= i < |frames| :: SlotIds(frames[i], base, first + i))
    && (forall r :: SlotsOwn(base, first, first + |frames|, r) ==> r in env.live)
    && DistinctFeedback(frames)
    && (forall f: nat :: Referenced(frames, f) ==> f in env.liveFeedbacks)
  }

  lemma TearSlot(env: Env, frames: seq<FrameSlot>, base: int, first: nat) returns (e: Env)
    requires frames != [] && Tearable(env, frames, base, first)
    ensures TearFrames(env, frames) == TearFrames(e, frames[1..])
    ensures Tearable(e, frames[1..], base, first + 1)
    ensures e.doubleFrees == env.doubleFrees
    ensures forall r :: r in e.live <==> r in env.live && !SlotsOwn(base, first, first + 1, r)
    ensures forall f :: f in e.liveFeedbacks <==> f in env.liveFeedbacks && frames[0].presentFeedback != Some(f)
  {
    hide DestroyEach, SlotHandles;
    var fb, rest := frames[0], frames[1..];
    var e1 := if fb.presentFeedback.Some? then DestroyFeedback(env, fb.presentFeedback.value) else env;
    assert fb.presentFeedback.Some? ==> Referenced(frames, fb.presentFeedback.value);
    assert SlotIds(frames[0], base, first + 0);
    SlotHandlesAre(fb, base, first);
    forall a | 0 <= a < |SlotHandles(fb)|
      ensures SlotHandles(fb)[a] in e1.live
    {
      assert SlotHandles(fb)[a] in SlotHandles(fb);
      assert SlotsOwn(base, first, first + 1, SlotHandles(fb)[a]);
    }
    DestroyEachFrees(e1, SlotHandles(fb));
    DestroyEachOnly(e1, SlotHandles(fb));
    e := DestroyEach(e1, SlotHandles(fb));
    forall i | 0 <= i < |rest|
      ensures SlotIds(rest[i], base, first + 1 + i) && rest[i] == frames[i + 1]
    {
      assert SlotIds(frames[i + 1], base, first + (i + 1));
    }
    forall f: nat | Referenced(rest, f)
      ensures f in e.liveFeedbacks
    {
      var i :| 0 <= i < |rest| && rest[i].presentFeedback == Some(f);
      assert frames[i + 1].presentFeedback == Some(f);
      assert Referenced(frames, f);
    }
  }

  lemma {:induction false} TearFramesFrees(env: Env, frames: seq<FrameSlot>, base: int, first: nat)
    requires Tearable(env, frames, base, first)
    ensures TearFrames(env, frames).doubleFrees == env.doubleFrees
    ensures forall r :: r in TearFrames(env, frames).live
                        <==> r in env.live && !SlotsOwn(base, first, first + |frames|, r)
    ensures forall f :: f in TearFrames(env, frames).liveFeedbacks
                        <==> f in env.liveFeedbacks && !Referenced(frames, f)
    decreases |frames|
  {
    hide TearFrames, Tearable;
    if frames == [] {
      TearNothing(env);
    } else {
      var e := TearSlot(env, frames, base, first);
      TearFramesFrees(e, frames[1..], base, first + 1);
      assert frames == [frames[0]] + frames[1..];
    }
  }

  lemma TearNothing(env: Env)
    ensures TearFrames(env, []) == env
  {
  }

  /** From any reachable state the destructor frees every live handle of the ring exactly once. What
      it leaves are feedback objects: object f, made by commit f, exactly when it was neither
      presented nor discarded nor destroyed by a resize although its slot has been committed again,
      N commits later. Those are the live objects no slot refers to any more. */
  lemma TeardownFreesAll(c: Config, batches: seq<seq<Happening>>, actions: seq<Action>)
    requires Constructed(c, batches)
    ensures var s := Reach(c, batches, actions).s;
            && Teardown(s).doubleFrees == 0
            && Teardown(s).live == {}
            && (forall f :: f in Teardown(s).liveFeedbacks <==>
                  f in s.env.liveFeedbacks && f + |s.win.frames| < |s.env.commits|)
            && (forall f :: f in Teardown(s).liveFeedbacks <==>
                  f in s.env.liveFeedbacks && !Referenced(s.win.frames, f))
  {
    hide Reach;
    TeardownOf(Reach(c, batches, actions).s);
  }

  /** Committing a slot again before its feedback object was answered displaces that object: it
      stays live and no slot refers to it. */
  lemma RecommitDisplacesFeedback(s: State, i: nat, f: nat)
    requires Inv(s) && RingShape(s) && s.win.collectStats && CommitFrame(s, i).1.None?
    requires s.win.frames[i].presentFeedback == Some(f)
    ensures var s' := CommitFrame(s, i).0;
            f in s'.env.liveFeedbacks && !Referenced(s'.win.frames, f)
  {
    hide RingOk, OwnershipOk, PacingOk, SizesOk;
    var s' := CommitFrame(s, i).0;
    forall j | 0 <= j < |s.win.frames|
      ensures s'.win.frames[j].presentFeedback != Some(f)
    {
      if j < i {
        assert s.win.frames[j].presentFeedback != s.win.frames[i].presentFeedback;
      }
    }
  }

  lemma TeardownOf(s: State)
    requires Inv(s)
    ensures Teardown(s).doubleFrees == 0 && Teardown(s).live == {}
    ensures forall f :: f in Teardown(s).liveFeedbacks <==>
              f in s.env.liveFeedbacks && !Referenced(s.win.frames, f)
    ensures forall f :: f in Teardown(s).liveFeedbacks <==>
              f in s.env.liveFeedbacks && f + |s.win.frames| < |s.env.commits|
  {
    hide TearRetired, TearFrames, OwnershipOk, RingOk, SizesOk, FeedbackHistoryOk;
    var e0 := WaitIdle(s.env);
    RetiredInOrder(s);
    OwnedByParts(s);
    TearRetiredFrees(e0, s.win.retired);
    var e1 := TearRetired(e0, s.win.retired);
    SlotsTearable(s, e1);
    TearFramesFrees(e1, s.win.frames, Base(s), 0);
    NoDoubleFree(s);
    LappedIsUnreferenced(s);
  }

  // A live feedback object is its slot's own until the slot is committed again.
  lemma LappedIsUnreferenced(s: State)
    requires FeedbackHistoryOk(s)
    ensures forall f | f in s.env.liveFeedbacks ::
              !Referenced(s.win.frames, f) <==> f + |s.win.frames| < |s.env.commits|
  {
  }

  lemma NoDoubleFree(s: State)
    requires Inv(s)
    ensures s.env.doubleFrees == 0
  {
  }

  lemma RetiredInOrder(s: State)
    requires Inv(s)
    ensures InOrder(s.win.retired)
    ensures forall r :: RetiredMemory(s.win.retired, r) ==> r in s.env.live
    ensures forall r :: RetiredMemory(s.win.retired, r) ==> !SlotsOwn(Base(s), 0, |s.win.frames|, r)
  {
    assert forall a | 0 <= a < |s.win.retired| :: RetiredOk(s, s.win.retired[a]);
    forall r | RetiredMemory(s.win.retired, r)
      ensures r in s.env.live
    {
      assert OwnsMemory(s, r.n) && Owns(s, r);
    }
  }

  lemma SlotsTearable(s: State, e: Env)
    requires Inv(s) && InOrder(s.win.retired)
    requires forall r :: r in e.live <==> r in s.env.live && !RetiredMemory(s.win.retired, r)
    requires forall r :: RetiredMemory(s.win.retired, r) ==> !SlotsOwn(Base(s), 0, |s.win.frames|, r)
    requires e.liveFeedbacks == s.env.liveFeedbacks
    ensures Tearable(e, s.win.frames, Base(s), 0)
  {
    hide RetiredMemory, InOrder;
    forall i | 0 <= i < |s.win.frames|
      ensures SlotIds(s.win.frames[i], Base(s), 0 + i)
    {
      assert SlotOk(s, i);
    }
    forall r | SlotsOwn(Base(s), 0, 0 + |s.win.frames|, r)
      ensures r in e.live
    {
      assert Owns(s, r);
    }
  }

  // Whatever is live is a retired entry's, a slot's, or the frame callback.
  lemma OwnedByParts(s: State)
    requires Inv(s) && InOrder(s.win.retired)
    ensures forall r | r in s.env.live ::
              || RetiredMemory(s.win.retired, r)
              || SlotsOwn(Base(s), 0, |s.win.frames|, r)
              || (s.win.frameCallback.Some? && r == Callback(s.win.frameCallback.value))
    ensures s.win.frameCallback.Some? ==>
              && Callback(s.win.frameCallback.value) in s.env.live
              && !RetiredMemory(s.win.retired, Callback(s.win.frameCallback.value))
  {
    forall r | r in s.env.live && !RetiredMemory(s.win.retired, r)
      ensures SlotsOwn(Base(s), 0, |s.win.frames|, r)
              || (s.win.frameCallback.Some? && r == Callback(s.win.frameCallback.value))
    {
      assert Owns(s, r);
      if r.Image? || r.Buffer? || r.Fd? {
        MemoryOf(s, r);
      }
    }
    assert s.win.frameCallback.Some? ==> Owns(s, Callback(s.win.frameCallback.value));
  }

  lemma MemoryOf(s: State, r: Resource)
    requires Inv(s) && InOrder(s.win.retired) && r in s.env.live && !RetiredMemory(s.win.retired, r)
    requires r.Image? || r.Buffer? || r.Fd?
    ensures Base(s) <= r.n < |s.env.extents|
  {
    assert Owns(s, r) && OwnsMemory(s, r.n);
    if a :| 0 <= a < |s.win.retired| && s.win.retired[a].image == Some(r.n) {
      assert IsMemory(r, s.win.retired[a].image.value);
    }
  }
}
