/** The frame ring as a state machine: the library's fields (window.cpp, detail.hpp), everything
    outside it that they depend on, and what each call and each event does to both.

    Everything the library cannot control is a parameter. A blocking call takes a finite script
    of what the outside does while it waits; when the script runs out the call is still blocked. */
module Ring {
  import opened Prelude
  import opened Stats

  // ---- the library's state ----

  // FrameSlot of detail.hpp. None is the null handle. A Wayland timeline object is named by the
  // kernel sync object it was imported from.
  datatype FrameSlot = FrameSlot(
    image: Option<nat>, buffer: Option<nat>, dmaBufFd: Option<nat>,
    acquireSyncobj: Option<nat>, releaseSyncobj: Option<nat>,
    acquireTimeline: Option<nat>, releaseTimeline: Option<nat>,
    counter: nat, released: bool, presentFeedback: Option<nat>, renderFence: Option<nat>)

  const EMPTY_SLOT := FrameSlot(None, None, None, None, None, None, None, 0, false, None, None)

  // The fields of Impl that the frame protocol reads or writes.
  datatype Win = Win(
    configured: bool, closed: bool, frameDue: bool, resizePending: bool,
    width: nat, height: nat, pendingWidth: nat, pendingHeight: nat,
    frames: seq<FrameSlot>, retired: seq<FrameSlot>,
    nextFrame: nat, handedIndex: Option<nat>, presentedOnce: bool,
    frameCallback: Option<nat>, stats: StatsAccum, collectStats: bool)

  // ---- everything else: GPU, kernel sync objects, compositor, and the handles in existence ----

  datatype Resource =
    | Image(n: nat) | Buffer(n: nat) | Fd(n: nat)
    | Syncobj(n: nat) | Timeline(n: nat) | Fence(n: nat) | Callback(n: nat)

  // One vkQueueSubmit signalling a slot's fence and writing an image.
  datatype Job = Job(fence: Option<nat>, image: Option<nat>)

  // Busy(j): the fence carries the payload of job j, pending or signalled.
  datatype FenceState = Idle | Busy(job: nat)

  // One wl_surface.commit with the two points and the buffer that it made current.
  datatype Commit = Commit(
    acquire: Option<nat>, acquirePoint: nat, release: Option<nat>, releasePoint: nat,
    buffer: Option<nat>)

  datatype Env = Env(
    extents: seq<(nat, nat)>,                   // size of image n, for every image ever created
    jobs: seq<Job>, done: set<nat>,             // every submission, and the finished ones
    fences: seq<FenceState>,
    acquire: map<(Option<nat>, nat), nat>,      // acquire point -> the job that signals it
    commits: seq<Commit>, released: set<nat>,   // every commit, and those whose release point is signalled
    live: set<Resource>,                        // handles created and not destroyed
    feedbacks: nat, liveFeedbacks: set<nat>, resizeDestroyed: nat,
    callbacks: nat, callbackCommitted: bool, frameDones: nat,
    announced: seq<(nat, nat)>,                 // the on_resize calls
    lastConfigure: Option<(nat, nat)>,          // the last positive configured size
    doubleFrees: nat,                           // destructions of a handle that was not live
    hazards: nat)                               // destructions of memory the compositor or GPU still uses

  datatype State = State(win: Win, env: Env)

  // ---- the outside ----

  // The acquire point of commit k: the job bound to it has finished.
  predicate AcquireSignalled(env: Env, k: nat)
    requires k < |env.commits|
  {
    var point := (env.commits[k].acquire, env.commits[k].acquirePoint);
    point in env.acquire && env.acquire[point] in env.done
  }

  // A point on a release timeline is signalled once a commit that named it or a later point of the
  // same timeline is released.
  predicate ReleaseSignalled(env: Env, syncobj: Option<nat>, point: nat) {
    exists k | k in env.released ::
      k < |env.commits| && env.commits[k].release == syncobj && env.commits[k].releasePoint >= point
  }

  // The compositor may still read buffer n: some commit attached it and is not released.
  predicate CompositorHolds(env: Env, n: nat) {
    exists k | 0 <= k < |env.commits| :: k !in env.released && env.commits[k].buffer == Some(n)
  }

  // Some unfinished GPU job writes image n.
  predicate GpuWrites(env: Env, n: nat) {
    exists j | 0 <= j < |env.jobs| :: j !in env.done && env.jobs[j].image == Some(n)
  }

  // Image, buffer and descriptor number n name the same memory.
  predicate InUse(env: Env, r: Resource) {
    (r.Image? || r.Buffer? || r.Fd?) && (CompositorHolds(env, r.n) || GpuWrites(env, r.n))
  }

  function Free(env: Env, r: Resource): Env {
    env.(live := env.live - {r},
         doubleFrees := if r in env.live then env.doubleFrees else env.doubleFrees + 1)
  }

  function Destroy(env: Env, r: Resource): Env {
    Free(env, r).(hazards := if InUse(env, r) then env.hazards + 1 else env.hazards)
  }

  function DestroyEach(env: Env, rs: seq<Resource>): Env
    decreases |rs|
  {
    if rs == [] then env else DestroyEach(Destroy(env, rs[0]), rs[1..])
  }

  function DestroyFeedback(env: Env, f: nat): Env {
    env.(liveFeedbacks := env.liveFeedbacks - {f},
         doubleFrees := if f in env.liveFeedbacks then env.doubleFrees else env.doubleFrees + 1)
  }

  // What the kernel side may do at any moment. A release needs its acquire point first.
  datatype KernelEvent = JobDone(job: nat) | Release(commit: nat)

  function Kernel(env: Env, e: KernelEvent): Env {
    match e
    case JobDone(j) => if j < |env.jobs| then env.(done := env.done + {j}) else env
    case Release(k) =>
      if k < |env.commits| && AcquireSignalled(env, k) then env.(released := env.released + {k}) else env
  }

  function KernelAll(env: Env, es: seq<KernelEvent>): Env
    decreases |es|
  {
    if es == [] then env else KernelAll(Kernel(env, es[0]), es[1..])
  }

  // ---- listeners ----

  datatype Event =
    | FrameDone
    | ToplevelConfigure(width: int, height: int)
    | SurfaceConfigure
    | Close
    | Presented(feedback: nat, time: Timestamp, refresh: nat)
    | Discarded(feedback: nat)

  // The compositor can send the event: the object it is addressed to exists, and a frame
  // callback fires only after a commit has carried it.
  predicate Deliverable(s: State, e: Event) {
    match e
    case FrameDone => s.win.frameCallback.Some? && s.env.callbackCommitted
    case Presented(f, _, _) => f in s.env.liveFeedbacks
    case Discarded(f) => f in s.env.liveFeedbacks
    case _ => true
  }

  function Dispatch(s: State, e: Event): State {
    if !Deliverable(s, e) then s else
      match e
      case FrameDone =>
        State(s.win.(frameCallback := None, frameDue := true),
              Free(s.env, Callback(s.win.frameCallback.value))
              .(callbackCommitted := false, frameDones := s.env.frameDones + 1))
      case ToplevelConfigure(w, h) => Configure(s, w, h)
      case SurfaceConfigure => s.(win := s.win.(configured := true))
      case Close => s.(win := s.win.(closed := true))
      case Presented(f, t, refresh) =>
        State(s.win.(stats := Accumulate(s.win.stats, TvNs(t), refresh),
                     frames := ForgetFeedback(s.win.frames, f)),
              DestroyFeedback(s.env, f))
      case Discarded(f) =>
        State(s.win.(stats := s.win.stats.(discarded := s.win.stats.discarded + 1),
                     frames := ForgetFeedback(s.win.frames, f)),
              DestroyFeedback(s.env, f))
  }

  function Configure(s: State, w: int, h: int): State {
    if w <= 0 || h <= 0 then s else
      var changed := s.win.configured && (w != s.win.width || h != s.win.height);
      State(s.win.(pendingWidth := w, pendingHeight := h,
                   resizePending := s.win.resizePending || changed),
            s.env.(lastConfigure := Some((w, h))))
  }

  // The first slot that refers to the feedback object stops doing so.
  function ForgetFeedback(frames: seq<FrameSlot>, f: nat): (r: seq<FrameSlot>)
    ensures |r| == |frames|
    ensures forall i | 0 <= i < |frames| :: r[i] == frames[i].(presentFeedback := r[i].presentFeedback)
  {
    if frames == [] then []
    else if frames[0].presentFeedback == Some(f) then
      [frames[0].(presentFeedback := None)] + frames[1..]
    else [frames[0]] + ForgetFeedback(frames[1..], f)
  }

  // What happens while the library is in a dispatch: queued events, and the kernel moving on.
  datatype Happening = Wayland(event: Event) | Async(kernel: KernelEvent)

  function Happen(s: State, h: Happening): State {
    match h
    case Wayland(e) => Dispatch(s, e)
    case Async(k) => s.(env := Kernel(s.env, k))
  }

  function HappenAll(s: State, hs: seq<Happening>): State
    decreases |hs|
  {
    if hs == [] then s else HappenAll(Happen(s, hs[0]), hs[1..])
  }

  // One timed wait on a release point: the kernel moves on, then the wait reports success only
  // on a signalled point, and may time out regardless.
  datatype Probe = Probe(kernel: seq<KernelEvent>, timesOut: bool)

  function WaitReleasePoint(s: State, syncobj: Option<nat>, point: nat, p: Probe): (State, bool) {
    var env := KernelAll(s.env, p.kernel);
    (s.(env := env), ReleaseSignalled(env, syncobj, point) && !p.timesOut)
  }

  // ---- reap_retired ----

  // The handles one entry of retired_ owns, in the order they are freed. It borrows the release
  // sync object.
  function RetiredHandles(fb: FrameSlot): seq<Resource> {
    (if fb.buffer.Some? then [Buffer(fb.buffer.value)] else [])
    + (if fb.image.Some? then [Image(fb.image.value)] else [])
    + (if fb.dmaBufFd.Some? then [Fd(fb.dmaBufFd.value)] else [])
  }

  function ProbeOf(probes: seq<Probe>): Probe {
    if probes == [] then Probe([], true) else probes[0]
  }

  function Rest(probes: seq<Probe>): seq<Probe> {
    if probes == [] then [] else probes[1..]
  }

  function Erase(xs: seq<FrameSlot>, i: nat): seq<FrameSlot>
    requires i < |xs|
  {
    xs[..i] + xs[i + 1..]
  }

  // Decide entry i: destroy and erase it, or keep it (true).
  function ReapEntry(s: State, i: nat, p: Probe): (r: (State, bool))
    requires i < |s.win.retired|
    ensures |r.0.win.retired| == if r.1 then |s.win.retired| else |s.win.retired| - 1
  {
    var fb := s.win.retired[i];
    if !fb.released && fb.counter > 0 then
      var (s1, ready) := WaitReleasePoint(s, fb.releaseSyncobj, fb.counter, p);
      if ready then (DropRetired(s1, i), false) else (s1, true)
    else (DropRetired(s, i), false)
  }

  // Entries before i have been kept; decide the others in order, one probe each.
  function ReapFrom(s: State, i: nat, probes: seq<Probe>): State
    decreases |s.win.retired| - i
  {
    if i >= |s.win.retired| then s else
      var (s1, kept) := ReapEntry(s, i, ProbeOf(probes));
      ReapFrom(s1, if kept then i + 1 else i, Rest(probes))
  }

  function DropRetired(s: State, i: nat): State
    requires i < |s.win.retired|
  {
    State(s.win.(retired := Erase(s.win.retired, i)), DestroyEach(s.env, RetiredHandles(s.win.retired[i])))
  }

  // ---- handle_resize ----

  // A new slot keeps the old one's sync objects, timelines, fence and counter, and gets new memory.
  function Renewed(slot: FrameSlot, n: nat): FrameSlot {
    slot.(image := Some(n), buffer := Some(n), dmaBufFd := Some(n),
          released := false, presentFeedback := None)
  }

  // The retired copy owns the old memory and borrows the release timeline.
  function RetiredCopy(slot: FrameSlot): FrameSlot {
    EMPTY_SLOT.(image := slot.image, buffer := slot.buffer, dmaBufFd := slot.dmaBufFd,
                releaseSyncobj := slot.releaseSyncobj, counter := slot.counter)
  }

  function AllRenewed(frames: seq<FrameSlot>, base: nat): (r: seq<FrameSlot>)
    ensures |r| == |frames|
  {
    seq(|frames|, i requires 0 <= i < |frames| => Renewed(frames[i], base + i))
  }

  function AllRetired(frames: seq<FrameSlot>): (r: seq<FrameSlot>)
    ensures |r| == |frames|
  {
    seq(|frames|, i requires 0 <= i < |frames| => RetiredCopy(frames[i]))
  }

  function DropFeedbacks(env: Env, frames: seq<FrameSlot>): (r: Env)
    ensures r == env.(liveFeedbacks := r.liveFeedbacks, resizeDestroyed := r.resizeDestroyed,
                      doubleFrees := r.doubleFrees)
    decreases |frames|
  {
    if frames == [] then env
    else if frames[0].presentFeedback.Some? then
      DropFeedbacks(DestroyFeedback(env, frames[0].presentFeedback.value)
                    .(resizeDestroyed := env.resizeDestroyed + 1), frames[1..])
    else DropFeedbacks(env, frames[1..])
  }

  // The three handles of each of `count` new images, numbered from `base`.
  function Memory(base: nat, count: nat): set<Resource> {
    (set n: nat | base <= n < base + count :: Image(n))
    + (set n: nat | base <= n < base + count :: Buffer(n))
    + (set n: nat | base <= n < base + count :: Fd(n))
  }

  function CreateMemory(env: Env, count: nat, extent: (nat, nat)): (r: Env)
    ensures r == env.(live := r.live, extents := r.extents)
  {
    env.(live := env.live + Memory(|env.extents|, count),
         extents := env.extents + seq(count, _ => extent))
  }

  function UpTo(n: nat): (r: set<nat>)
    ensures forall j: nat :: j in r <==> j < n
  {
    if n == 0 then {} else UpTo(n - 1) + {n - 1}
  }

  // vkDeviceWaitIdle finishes every submission.
  function WaitIdle(env: Env): Env {
    env.(done := env.done + UpTo(|env.jobs|))
  }

  function HandleResize(s: State): State {
    var extent := (s.win.pendingWidth, s.win.pendingHeight);
    var created := CreateMemory(DropFeedbacks(WaitIdle(s.env), s.win.frames), |s.win.frames|, extent);
    State(s.win.(retired := s.win.retired + AllRetired(s.win.frames),
                 frames := AllRenewed(s.win.frames, |s.env.extents|),
                 width := extent.0, height := extent.1, resizePending := false,
                 handedIndex := None),
          created.(announced := s.env.announced + [extent]))
  }

  // ---- next_frame ----

  datatype Frame = Frame(index: nat, image: Option<nat>, dmaBufFd: Option<nat>, renderFence: Option<nat>)

  datatype Outcome = Handed(frame: Frame) | WindowClosed | AwaitingFrame | AwaitingRelease

  // One turn of the release loop: a timed wait, then what the drain delivers if it failed.
  datatype Attempt = Attempt(probe: Probe, drained: seq<Happening>)

  datatype Script = Script(reap: seq<Probe>, polls: seq<seq<Happening>>, attempts: seq<Attempt>)

  predicate RingShape(s: State) {
    s.win.nextFrame < |s.win.frames|
  }

  function PollLoop(s: State, polls: seq<seq<Happening>>): State
    decreases |polls|
  {
    if s.win.frameDue || s.win.closed || polls == [] then s
    else PollLoop(HappenAll(s, polls[0]), polls[1..])
  }

  function ArmFrame(s: State): State {
    var n := s.env.callbacks;
    State(s.win.(frameCallback := Some(n)),
          s.env.(callbacks := n + 1, live := s.env.live + {Callback(n)}, callbackCommitted := false))
  }

  function HandOut(s: State): (State, Outcome)
    requires RingShape(s)
  {
    var i := s.win.nextFrame;
    var fb := s.win.frames[i];
    (s.(win := s.win.(handedIndex := Some(i))), Handed(Frame(i, fb.image, fb.dmaBufFd, fb.renderFence)))
  }

  function ReleaseLoop(s: State, attempts: seq<Attempt>): (State, Outcome)
    requires RingShape(s)
    decreases |attempts|
  {
    var fb := s.win.frames[s.win.nextFrame];
    if fb.counter == 0 then HandOut(s)
    else if attempts == [] then (s, AwaitingRelease)
    else
      var (s1, ready) := WaitReleasePoint(s, fb.releaseSyncobj, fb.counter, attempts[0].probe);
      if ready then HandOut(s1)
      else
        var s2 := HappenAll(s1, attempts[0].drained);
        HappenAllUntouched(s1, attempts[0].drained);
        if s2.win.closed then (s2, WindowClosed) else ReleaseLoop(s2, attempts[1..])
  }

  // Take the frame callback that was waited for, and ask for the next one.
  function Rearm(s: State): State {
    var s1 := s.(win := s.win.(frameDue := false));
    if s1.win.frameCallback.None? && !s1.win.closed then ArmFrame(s1) else s1
  }

  function Granted(s: State): State {
    Rearm(if s.win.resizePending then HandleResize(s) else s)
  }

  function NextFrame(s: State, sc: Script): (State, Outcome)
    requires RingShape(s)
  {
    var s1 := if s.win.retired != [] then ReapFrom(s, 0, sc.reap) else s;
    ReapFromFrame(s, 0, sc.reap);
    if s1.win.presentedOnce then
      var s2 := PollLoop(s1, sc.polls);
      PollLoopUntouched(s1, sc.polls);
      if !s2.win.frameDue && !s2.win.closed then (s2, AwaitingFrame)
      else if s2.win.closed then (s2, WindowClosed)
      else ReleaseLoop(Granted(s2), sc.attempts)
    else ReleaseLoop(Granted(s1), sc.attempts)
  }

  // ---- commit_frame ----

  datatype PresentError = StaleFrame | NoSyncFd

  function FenceOf(env: Env, fence: Option<nat>): FenceState {
    if fence.Some? && fence.value < |env.fences| then env.fences[fence.value] else Idle
  }

  function SetFence(env: Env, fence: Option<nat>, v: FenceState): (r: Env)
    ensures r == env.(fences := r.fences)
  {
    if fence.Some? && fence.value < |env.fences| then env.(fences := env.fences[fence.value := v]) else env
  }

  function AttachFeedback(s: State, index: nat): (r: State)
    requires index < |s.win.frames|
    ensures |r.win.frames| == |s.win.frames|
  {
    if !s.win.collectStats then s else
      var n := s.env.feedbacks;
      State(s.win.(frames := s.win.frames[index := s.win.frames[index].(presentFeedback := Some(n))]),
            s.env.(feedbacks := n + 1, liveFeedbacks := s.env.liveFeedbacks + {n}))
  }

  function RecordCommit(s: State, index: nat, point: nat): State
    requires index < |s.win.frames|
  {
    var fb := s.win.frames[index];
    State(s.win.(frames := s.win.frames[index := fb.(counter := point)],
                 handedIndex := None, presentedOnce := true,
                 nextFrame := (s.win.nextFrame + 1) % |s.win.frames|),
          s.env.(commits := s.env.commits
                   + [Commit(fb.acquireTimeline, point, fb.releaseTimeline, point, fb.buffer)],
                 callbackCommitted := s.win.frameCallback.Some?))
  }

  function CommitFrame(s: State, index: nat): (State, Option<PresentError>)
    requires RingShape(s)
  {
    if s.win.handedIndex != Some(index) || index >= |s.win.frames| then (s, Some(StaleFrame)) else
      var fb := s.win.frames[index];
      var point := fb.counter + 1;
      match FenceOf(s.env, fb.renderFence)
      case Idle => (s, Some(NoSyncFd))
      case Busy(job) =>
        var acquired := s.env.(acquire := s.env.acquire[(fb.acquireSyncobj, point) := job]);
        var reset := s.(env := SetFence(acquired, fb.renderFence, Idle));
        (RecordCommit(AttachFeedback(reset, index), index, point), None)
  }

  // ---- the application's own step: submit work that signals the frame's fence ----

  function Submit(env: Env, f: Frame): Env {
    if FenceOf(env, f.renderFence) == Idle
    then SetFence(env.(jobs := env.jobs + [Job(f.renderFence, f.image)]), f.renderFence, Busy(|env.jobs|))
    else env
  }

  // ---- construction ----

  function InitialSlot(i: nat): FrameSlot {
    FrameSlot(Some(i), Some(i), Some(i), Some(2 * i), Some(2 * i + 1), Some(2 * i), Some(2 * i + 1),
              0, false, None, Some(i))
  }

  const BLANK := State(
    Win(false, false, false, false, 0, 0, 0, 0, [], [], 0, None, false, None, FRESH, false),
    Env([], [], {}, [], map[], [], {}, {}, 0, {}, 0, 0, false, 0, [], None, 0, 0))

  // init_wayland waits for the first configure; batches are what each dispatch delivers.
  function AwaitConfigure(s: State, batches: seq<seq<Happening>>): State
    decreases |batches|
  {
    if s.win.configured || s.win.closed || batches == [] then s
    else AwaitConfigure(HappenAll(s, batches[0]), batches[1..])
  }

  datatype Config = Config(width: nat, height: nat, bufferCount: nat, collectStats: bool)

  // None: the constructor failed, or is still waiting.
  function Construct(c: Config, batches: seq<seq<Happening>>): Option<State> {
    var s := AwaitConfigure(BLANK, batches);
    if !s.win.configured then None else Some(CreateFramebuffers(s, c))
  }

  function CreateFramebuffers(s: State, c: Config): State {
    var N := c.bufferCount;
    var w := if s.win.pendingWidth != 0 then s.win.pendingWidth else c.width;
    var h := if s.win.pendingHeight != 0 then s.win.pendingHeight else c.height;
    var env := CreateMemory(s.env, N, (w, h));
    State(s.win.(width := w, height := h, collectStats := c.collectStats,
                 frames := seq(N, i requires 0 <= i => InitialSlot(i))),
          env.(fences := seq(N, _ => Idle), live := env.live + SyncHandles(N)))
  }

  function SyncHandles(N: nat): set<Resource> {
    (set n: nat | n < 2 * N :: Syncobj(n))
    + (set n: nat | n < 2 * N :: Timeline(n))
    + (set n: nat | n < N :: Fence(n))
  }

  // ---- ~Impl ----

  // The handles one slot of frames_ owns, in the order the destructor frees them.
  function SlotHandles(fb: FrameSlot): seq<Resource> {
    (if fb.buffer.Some? then [Buffer(fb.buffer.value)] else [])
    + (if fb.acquireTimeline.Some? then [Timeline(fb.acquireTimeline.value)] else [])
    + (if fb.releaseTimeline.Some? then [Timeline(fb.releaseTimeline.value)] else [])
    + (if fb.acquireSyncobj.Some? then [Syncobj(fb.acquireSyncobj.value)] else [])
    + (if fb.releaseSyncobj.Some? then [Syncobj(fb.releaseSyncobj.value)] else [])
    + (if fb.dmaBufFd.Some? then [Fd(fb.dmaBufFd.value)] else [])
    + (if fb.renderFence.Some? then [Fence(fb.renderFence.value)] else [])
    + (if fb.image.Some? then [Image(fb.image.value)] else [])
  }

  function TearRetired(env: Env, retired: seq<FrameSlot>): Env
    decreases |retired|
  {
    if retired == [] then env else TearRetired(DestroyEach(env, RetiredHandles(retired[0])), retired[1..])
  }

  function TearFrames(env: Env, frames: seq<FrameSlot>): Env
    decreases |frames|
  {
    if frames == [] then env else
      var fb := frames[0];
      var e := if fb.presentFeedback.Some? then DestroyFeedback(env, fb.presentFeedback.value) else env;
      TearFrames(DestroyEach(e, SlotHandles(fb)), frames[1..])
  }

  function Teardown(s: State): Env {
    var e := TearFrames(TearRetired(WaitIdle(s.env), s.win.retired), s.win.frames);
    if s.win.frameCallback.Some? then Free(e, Callback(s.win.frameCallback.value)) else e
  }

  // ---- what events and loops leave alone ----

  // Only GPU work and releases have moved on.
  ghost predicate KernelOnly(e: Env, e': Env) {
    e' == e.(done := e'.done, released := e'.released) && e.done <= e'.done && e.released <= e'.released
  }

  lemma {:induction false} KernelAllOnly(env: Env, es: seq<KernelEvent>)
    ensures KernelOnly(env, KernelAll(env, es))
    decreases |es|
  {
    hide AcquireSignalled;
    if es != [] {
      KernelAllOnly(Kernel(env, es[0]), es[1..]);
    }
  }

  // What neither an event nor a kernel step changes: apart from its feedback, no slot, no retired
  // entry, not the hand-out, no size in use, no job, fence, commit or image.
  ghost predicate Untouched(s: State, s': State) {
    && s'.win == s.win.(configured := s'.win.configured, closed := s'.win.closed, frameDue := s'.win.frameDue,
                        resizePending := s'.win.resizePending, pendingWidth := s'.win.pendingWidth,
                        pendingHeight := s'.win.pendingHeight, frames := s'.win.frames,
                        frameCallback := s'.win.frameCallback, stats := s'.win.stats)
    && s'.env == s.env.(done := s'.env.done, released := s'.env.released, live := s'.env.live,
                        liveFeedbacks := s'.env.liveFeedbacks, callbackCommitted := s'.env.callbackCommitted,
                        frameDones := s'.env.frameDones, lastConfigure := s'.env.lastConfigure,
                        doubleFrees := s'.env.doubleFrees)
    && s.env.done <= s'.env.done && s.env.released <= s'.env.released
    && (s.env.lastConfigure.Some? ==> s'.env.lastConfigure.Some?)
    && |s'.win.frames| == |s.win.frames|
    && forall i | 0 <= i < |s.win.frames| ::
         s'.win.frames[i] == s.win.frames[i].(presentFeedback := s'.win.frames[i].presentFeedback)
  }

  lemma HappenUntouched(s: State, h: Happening)
    ensures Untouched(s, Happen(s, h))
  {
    hide AcquireSignalled, ForgetFeedback;
    if h.Wayland? {
      match h.event
      case FrameDone =>
      case ToplevelConfigure(_, _) =>
      case SurfaceConfigure =>
      case Close =>
      case Presented(_, _, _) =>
      case Discarded(_) =>
    }
  }

  lemma {:induction false} HappenAllUntouched(s: State, hs: seq<Happening>)
    ensures Untouched(s, HappenAll(s, hs))
    decreases |hs|
  {
    hide Happen;
    if hs != [] {
      HappenUntouched(s, hs[0]);
      HappenAllUntouched(Happen(s, hs[0]), hs[1..]);
    }
  }

  lemma {:induction false} PollLoopUntouched(s: State, polls: seq<seq<Happening>>)
    ensures Untouched(s, PollLoop(s, polls))
    decreases |polls|
  {
    hide HappenAll;
    if !(s.win.frameDue || s.win.closed || polls == []) {
      HappenAllUntouched(s, polls[0]);
      PollLoopUntouched(HappenAll(s, polls[0]), polls[1..]);
    }
  }

  lemma ProbeUntouched(s: State, es: seq<KernelEvent>)
    ensures Untouched(s, s.(env := KernelAll(s.env, es)))
  {
    hide KernelAll;
    KernelAllOnly(s.env, es);
  }

  // ... apart from the hand-out.
  ghost predicate UntouchedButHandOut(s: State, s': State) {
    Untouched(s.(win := s.win.(handedIndex := s'.win.handedIndex)), s')
  }

  lemma UntouchedThen(s: State, s1: State, s': State)
    requires Untouched(s, s1) && UntouchedButHandOut(s1, s')
    ensures UntouchedButHandOut(s, s') && s1.win.handedIndex == s.win.handedIndex
  {
  }

  // The release loop adds at most the hand-out.
  lemma {:induction false} ReleaseLoopUntouched(s: State, attempts: seq<Attempt>)
    requires RingShape(s)
    ensures var (s', o) := ReleaseLoop(s, attempts);
            UntouchedButHandOut(s, s') && (!o.Handed? ==> s'.win.handedIndex == s.win.handedIndex)
    decreases |attempts|
  {
    hide HappenAll, KernelAll, ReleaseSignalled, Untouched, UntouchedButHandOut, HandOut;
    var (s', o) := ReleaseLoop(s, attempts);
    HandOutUntouched(s);
    if s.win.frames[s.win.nextFrame].counter > 0 && attempts != [] {
      var s1 := s.(env := KernelAll(s.env, attempts[0].probe.kernel));
      var s2 := HappenAll(s1, attempts[0].drained);
      ProbeUntouched(s, attempts[0].probe.kernel);
      HandOutUntouched(s1);
      HappenAllShape(s1, attempts[0].drained);
      HandOutUntouched(s2);
      if s' == HandOut(s1).0 && o.Handed? {
        UntouchedThen(s, s1, s');
      } else {
        if !s2.win.closed {
          ReleaseLoopUntouched(s2, attempts[1..]);
        }
        UntouchedThen(s1, s2, s');
        UntouchedThen(s, s1, s');
      }
    }
  }

  lemma HandOutUntouched(s: State)
    requires RingShape(s)
    ensures UntouchedButHandOut(s, HandOut(s).0) && UntouchedButHandOut(s, s) && HandOut(s).1.Handed?
  {
  }

  lemma HappenAllShape(s: State, hs: seq<Happening>)
    requires RingShape(s)
    ensures RingShape(HappenAll(s, hs)) && Untouched(s, HappenAll(s, hs))
  {
    hide HappenAll;
    HappenAllUntouched(s, hs);
  }

  lemma ReapEntryFrame(s: State, i: nat, p: Probe)
    requires i < |s.win.retired|
    ensures var s' := ReapEntry(s, i, p).0;
            s'.win == s.win.(retired := s'.win.retired)
  {
    hide KernelAll, DestroyEach, RetiredHandles, ReleaseSignalled, Erase;
  }

  lemma {:induction false} ReapFromFrame(s: State, i: nat, probes: seq<Probe>)
    ensures ReapFrom(s, i, probes).win == s.win.(retired := ReapFrom(s, i, probes).win.retired)
    decreases |s.win.retired| - i
  {
    hide ReapEntry;
    if i < |s.win.retired| {
      var (s1, kept) := ReapEntry(s, i, ProbeOf(probes));
      ReapEntryFrame(s, i, ProbeOf(probes));
      ReapFromFrame(s1, if kept then i + 1 else i, Rest(probes));
    }
  }
}
