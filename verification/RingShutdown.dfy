/** What the destructor destroys under a user: never memory of unfinished GPU work, and exactly the
    buffers that the compositor has not given back. */
module RingShutdown {
  import opened Prelude
  import opened Ring
  import opened RingInvariant
  import opened RingSteps
  import opened RingRuns
  import opened RingTeardown

  // ---- counting ----

  ghost function InUseCount(env: Env, rs: seq<Resource>): nat {
    if rs == [] then 0 else (if InUse(env, rs[0]) then 1 else 0) + InUseCount(env, rs[1..])
  }

  lemma {:induction false} InUseConcat(env: Env, a: seq<Resource>, b: seq<Resource>)
    ensures InUseCount(env, a + b) == InUseCount(env, a) + InUseCount(env, b)
    decreases |a|
  {
    hide InUse;
    if a == [] {
      assert a + b == b;
    } else {
      assert (a + b)[1..] == a[1..] + b;
      InUseConcat(env, a[1..], b);
    }
  }

  // Nobody's use of any memory differs.
  ghost predicate SameUsers(e: Env, e': Env) {
    e'.commits == e.commits && e'.released == e.released && e'.jobs == e.jobs && e'.done == e.done
  }

  lemma {:induction false} SameInUse(e: Env, e': Env, rs: seq<Resource>)
    requires SameUsers(e, e')
    ensures InUseCount(e', rs) == InUseCount(e, rs)
    decreases |rs|
  {
    if rs != [] {
      SameInUse(e, e', rs[1..]);
    }
  }

  lemma {:induction false} DestroyEachHazards(env: Env, rs: seq<Resource>)
    ensures DestroyEach(env, rs).hazards == env.hazards + InUseCount(env, rs)
    decreases |rs|
  {
    hide InUse;
    if rs != [] {
      DestroyEachHazards(Destroy(env, rs[0]), rs[1..]);
      SameInUse(env, Destroy(env, rs[0]), rs[1..]);
    }
  }

  ghost predicate Idle(env: Env) {
    forall j: nat | j < |env.jobs| :: j in env.done
  }

  ghost function OneIfHeld(env: Env, id: Option<nat>): nat {
    if id.Some? && CompositorHolds(env, id.value) then 1 else 0
  }

  // A slot or retired entry holds one piece of memory, under three handles.
  ghost predicate Whole(fb: FrameSlot) {
    fb.image.Some? && fb.image == fb.buffer == fb.dmaBufFd
  }

  // How many of these slots the compositor still holds.
  ghost function HeldCount(env: Env, slots: seq<FrameSlot>): nat {
    if slots == [] then 0 else OneIfHeld(env, slots[0].buffer) + HeldCount(env, slots[1..])
  }

  lemma {:induction false} SameHeldCount(e: Env, e': Env, slots: seq<FrameSlot>)
    requires e'.commits == e.commits && e'.released == e.released
    ensures HeldCount(e', slots) == HeldCount(e, slots)
    decreases |slots|
  {
    if slots != [] {
      SameHeldCount(e, e', slots[1..]);
    }
  }

  lemma OneInUse(env: Env, r: Resource)
    requires Idle(env)
    ensures InUseCount(env, [r]) == if r.Image? || r.Buffer? || r.Fd? then OneIfHeld(env, Some(r.n)) else 0
    ensures InUseCount(env, []) == 0
  {
    hide CompositorHolds;
    var one := [r];
    assert one[1..] == [];
    assert !GpuWrites(env, r.n);
  }

  lemma RetiredInUse(env: Env, fb: FrameSlot)
    requires Idle(env) && Whole(fb)
    ensures InUseCount(env, RetiredHandles(fb)) == 3 * OneIfHeld(env, fb.buffer)
  {
    hide InUseCount, OneIfHeld, Idle;
    var n := fb.image.value;
    OneInUse(env, Buffer(n));
    OneInUse(env, Image(n));
    OneInUse(env, Fd(n));
    InUseConcat(env, [Buffer(n)], [Image(n)]);
    InUseConcat(env, [Buffer(n)] + [Image(n)], [Fd(n)]);
  }

  lemma SlotInUse(env: Env, fb: FrameSlot, base: int, i: nat)
    requires Idle(env) && SlotIds(fb, base, i)
    ensures InUseCount(env, SlotHandles(fb)) == 3 * OneIfHeld(env, fb.buffer)
  {
    hide InUseCount, OneIfHeld, Idle;
    var n: nat := base + i;
    var timelines, syncobjs := [Timeline(2 * i)] + [Timeline(2 * i + 1)], [Syncobj(2 * i)] + [Syncobj(2 * i + 1)];
    var last := [Fd(n)] + [Fence(i)] + [Image(n)];
    assert SlotHandles(fb) == [Buffer(n)] + timelines + syncobjs + last;
    OneInUse(env, Buffer(n));
    OneInUse(env, Timeline(2 * i));
    OneInUse(env, Timeline(2 * i + 1));
    OneInUse(env, Syncobj(2 * i));
    OneInUse(env, Syncobj(2 * i + 1));
    OneInUse(env, Fd(n));
    OneInUse(env, Fence(i));
    OneInUse(env, Image(n));
    InUseConcat(env, [Timeline(2 * i)], [Timeline(2 * i + 1)]);
    InUseConcat(env, [Syncobj(2 * i)], [Syncobj(2 * i + 1)]);
    InUseConcat(env, [Fd(n)], [Fence(i)]);
    InUseConcat(env, [Fd(n)] + [Fence(i)], [Image(n)]);
    InUseConcat(env, [Buffer(n)], timelines);
    InUseConcat(env, [Buffer(n)] + timelines, syncobjs);
    InUseConcat(env, [Buffer(n)] + timelines + syncobjs, last);
  }

  // ---- the destructor ----

  lemma {:induction false} TearRetiredHazards(env: Env, retired: seq<FrameSlot>)
    requires Idle(env) && forall a | 0 <= a < |retired| :: Whole(retired[a])
    ensures var e := TearRetired(env, retired);
            e.hazards == env.hazards + 3 * HeldCount(env, retired) && SameUsers(env, e)
    decreases |retired|
  {
    hide DestroyEach, RetiredHandles, Whole, OneIfHeld;
    if retired != [] {
      var rs := RetiredHandles(retired[0]);
      var e := DestroyEach(env, rs);
      RetiredInUse(env, retired[0]);
      DestroyEachHazards(env, rs);
      DestroyEachOnly(env, rs);
      TearRetiredHazards(e, retired[1..]);
      SameHeldCount(env, e, retired[1..]);
    }
  }

  lemma {:induction false} TearFramesHazards(env: Env, frames: seq<FrameSlot>, base: int, first: nat)
    requires Idle(env) && forall i | 0 <= i < |frames| :: SlotIds(frames[i], base, first + i)
    ensures TearFrames(env, frames).hazards == env.hazards + 3 * HeldCount(env, frames)
    decreases |frames|
  {
    hide DestroyEach, SlotHandles, SlotIds, OneIfHeld;
    if frames != [] {
      var fb, rs := frames[0], SlotHandles(frames[0]);
      var e1 := if fb.presentFeedback.Some? then DestroyFeedback(env, fb.presentFeedback.value) else env;
      var e := DestroyEach(e1, rs);
      assert SlotIds(frames[0], base, first + 0);
      SlotInUse(env, fb, base, first);
      SameInUse(env, e1, rs);
      DestroyEachHazards(e1, rs);
      DestroyEachOnly(e1, rs);
      forall i | 0 <= i < |frames[1..]|
        ensures SlotIds(frames[1..][i], base, first + 1 + i)
      {
        assert SlotIds(frames[i + 1], base, first + (i + 1));
      }
      TearFramesHazards(e, frames[1..], base, first + 1);
      SameHeldCount(env, e, frames[1..]);
    }
  }

  lemma WaitIdleIsIdle(env: Env)
    ensures Idle(WaitIdle(env)) && WaitIdle(env).commits == env.commits
    ensures WaitIdle(env).released == env.released && WaitIdle(env).hazards == env.hazards
  {
  }

  lemma SlotsAreWhole(s: State)
    requires Inv(s)
    ensures forall a | 0 <= a < |s.win.retired| :: Whole(s.win.retired[a])
    ensures forall i | 0 <= i < |s.win.frames| :: SlotIds(s.win.frames[i], Base(s), 0 + i)
    ensures s.env.hazards == 0
  {
    forall a | 0 <= a < |s.win.retired|
      ensures Whole(s.win.retired[a])
    {
      assert RetiredOk(s, s.win.retired[a]);
    }
    forall i | 0 <= i < |s.win.frames|
      ensures SlotIds(s.win.frames[i], Base(s), 0 + i)
    {
      assert SlotOk(s, i);
    }
  }

  lemma TeardownHazards(s: State)
    requires Inv(s)
    ensures Teardown(s).hazards == 3 * (HeldCount(s.env, s.win.retired) + HeldCount(s.env, s.win.frames))
  {
    hide TearRetired, TearFrames, Inv, WaitIdle, HeldCount, Whole, SlotIds, Idle;
    var e0 := WaitIdle(s.env);
    WaitIdleIsIdle(s.env);
    SlotsAreWhole(s);
    TearRetiredHazards(e0, s.win.retired);
    var e1 := TearRetired(e0, s.win.retired);
    StillIdle(e0, e1);
    TearFramesHazards(e1, s.win.frames, Base(s), 0);
    SameHeldCount(s.env, e0, s.win.retired);
    SameHeldCount(s.env, e1, s.win.frames);
  }

  lemma StillIdle(e: Env, e': Env)
    requires Idle(e) && SameUsers(e, e')
    ensures Idle(e')
  {
  }

  lemma {:induction false} HeldCountZero(env: Env, slots: seq<FrameSlot>)
    ensures HeldCount(env, slots) == 0 <==>
              forall a | 0 <= a < |slots| && slots[a].buffer.Some? :: !CompositorHolds(env, slots[a].buffer.value)
    decreases |slots|
  {
    hide CompositorHolds;
    if slots != [] {
      HeldCountZero(env, slots[1..]);
      assert forall a | 0 < a < |slots| :: slots[a] == slots[1..][a - 1];
      assert forall a | 0 <= a < |slots| - 1 :: slots[1..][a] == slots[a + 1];
    }
  }

  // Whatever the compositor holds is some slot's or entry's buffer.
  lemma HeldIsOwned(s: State, n: nat)
    requires Inv(s) && CompositorHolds(s.env, n)
    ensures (exists i | 0 <= i < |s.win.frames| :: s.win.frames[i].buffer == Some(n))
            || (exists a | 0 <= a < |s.win.retired| :: s.win.retired[a].buffer == Some(n))
  {
    assert OwnsMemory(s, n);
    if Base(s) <= n < |s.env.extents| {
      assert SlotOk(s, n - Base(s));
    } else {
      var a :| 0 <= a < |s.win.retired| && s.win.retired[a].image == Some(n);
      assert RetiredOk(s, s.win.retired[a]);
    }
  }

  lemma NothingHeldIff(s: State)
    requires Inv(s)
    ensures HeldCount(s.env, s.win.retired) + HeldCount(s.env, s.win.frames) == 0
            <==> forall n: nat :: !CompositorHolds(s.env, n)
  {
    hide Inv, CompositorHolds, HeldCount;
    HeldCountZero(s.env, s.win.retired);
    HeldCountZero(s.env, s.win.frames);
    forall n: nat | CompositorHolds(s.env, n)
      ensures HeldCount(s.env, s.win.retired) + HeldCount(s.env, s.win.frames) > 0
    {
      HeldIsOwned(s, n);
    }
  }

  /** The destructor destroys nothing that unfinished GPU work writes, whatever is pending: from any
      reachable state the only memory it destroys in use is what the compositor has not given back,
      three handles for each slot and retired entry; and none exactly when all has been. */
  lemma DestroysOnlyHeldInUse(c: Config, batches: seq<seq<Happening>>, actions: seq<Action>)
    requires Constructed(c, batches)
    ensures var s := Reach(c, batches, actions).s;
            && Teardown(s).hazards == 3 * (HeldCount(s.env, s.win.retired) + HeldCount(s.env, s.win.frames))
            && (Teardown(s).hazards == 0 <==> forall n: nat :: !CompositorHolds(s.env, n))
  {
    hide Reach, Teardown, HeldCount;
    TeardownHazards(Reach(c, batches, actions).s);
    NothingHeldIff(Reach(c, batches, actions).s);
  }
}
