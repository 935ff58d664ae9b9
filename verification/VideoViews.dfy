/** The video example keeps one image view per slot and renews it lazily: on_resize only marks the
    views invalid. A handed frame is always drawn through a view of that frame's own image. */
module VideoViews {
  import opened Prelude
  import opened Ring
  import opened RingInvariant
  import opened RingRuns

  datatype View = View(image: Option<nat>, valid: bool)

  function Invalidated(views: seq<View>): (r: seq<View>)
    ensures |r| == |views|
  {
    seq(|views|, i requires 0 <= i < |views| => views[i].(valid := false))
  }

  // What the main loop does with the frame it was handed.
  function Refreshed(views: seq<View>, f: Frame): (r: seq<View>)
    ensures |r| == |views|
  {
    if f.index < |views| && !views[f.index].valid then views[f.index := View(f.image, true)] else views
  }

  class SlotViews {
    var views: seq<View>

    constructor (count: nat)
      ensures views == seq(count, _ => View(None, false))
    {
      views := seq(count, _ => View(None, false));
    }

    method OnResize()
      modifies this
      ensures views == Invalidated(old(views))
    {
      var i := 0;
      while i < |views|
        invariant i <= |views| == |old(views)|
        invariant forall k | 0 <= k < i :: views[k] == old(views)[k].(valid := false)
        invariant forall k | i <= k < |views| :: views[k] == old(views)[k]
      {
        views := views[i := views[i].(valid := false)];
        i := i + 1;
      }
    }

    method Target(f: Frame) returns (image: Option<nat>)
      requires f.index < |views|
      modifies this
      ensures views == Refreshed(old(views), f) && image == views[f.index].image
    {
      if !views[f.index].valid {
        views := views[f.index := View(f.image, true)];
      }
      image := views[f.index].image;
    }
  }

  // A valid view shows the slot's current image.
  ghost predicate ViewsOk(s: State, views: seq<View>) {
    && |views| == |s.win.frames|
    && forall i | 0 <= i < |views| && views[i].valid :: views[i].image == s.win.frames[i].image
  }

  // The example's views across one action: on_resize runs when a resize is announced, and a handed
  // frame is drawn.
  ghost function Watched(views: seq<View>, y: Sys, y': Sys, a: Action): seq<View> {
    var v := if y'.s.env.announced != y.s.env.announced then Invalidated(views) else views;
    if a.WaitFrame? && y.blocked.None? && y'.frame.Some? then Refreshed(v, y'.frame.value) else v
  }

  // Without a resize the slots keep their images.
  lemma SameGeneration(s: State, s': State)
    requires Inv(s) && Inv(s')
    requires |s'.win.frames| == |s.win.frames| && s'.env.announced == s.env.announced
    ensures forall i | 0 <= i < |s.win.frames| :: s'.win.frames[i].image == s.win.frames[i].image
  {
    forall i | 0 <= i < |s.win.frames|
      ensures s'.win.frames[i].image == s.win.frames[i].image
    {
      assert SlotOk(s, i) && SlotOk(s', i);
    }
  }

  lemma RingSizeKept(y: Sys, a: Action)
    requires Good(y)
    ensures |Act(y, a).s.win.frames| == |y.s.win.frames|
  {
    hide Inv, NextFrame, HonestOk;
    if y.blocked.None? {
      match a
      case WaitFrame(sc) =>
        NextFrameKeepsInv(y.s, sc);
        SameRingSize(y.s, NextFrame(y.s, sc).0);
      case SubmitWork =>
      case Present(_) =>
      case Outside(hs) => HappenAllUntouched(y.s, hs);
    }
  }

  /** One action keeps every valid view on its slot's current image, and after a wait_frame that
      hands out a frame the slot's view is valid and shows exactly the handed image. */
  lemma ViewsFollowImages(y: Sys, views: seq<View>, a: Action)
    requires Good(y) && ViewsOk(y.s, views)
    ensures var y' := Act(y, a);
            var v := Watched(views, y, y', a);
            && ViewsOk(y'.s, v)
            && (a.WaitFrame? && y.blocked.None? && y'.frame.Some? ==>
                  y'.frame.value.index < |v| && v[y'.frame.value.index] == View(y'.frame.value.image, true))
  {
    hide Act, Inv, HonestOk;
    var y' := Act(y, a);
    ActKeepsGood(y, a);
    RingSizeKept(y, a);
    if y'.s.env.announced == y.s.env.announced {
      SameGeneration(y.s, y'.s);
    }
  }

  /** A view is made only when it has to be: while no resize is announced every valid view stays, and
      an action touches no other view than that of the frame it hands out. */
  lemma ValidViewsAreReused(y: Sys, views: seq<View>, a: Action, i: nat)
    requires Good(y) && ViewsOk(y.s, views) && i < |views|
    ensures var y' := Act(y, a);
            var v := Watched(views, y, y', a);
            && |v| == |views|
            && (y'.s.env.announced == y.s.env.announced && views[i].valid ==> v[i] == views[i])
            && (y'.frame.None? || y'.frame.value.index != i ==>
                  v[i] == views[i].(valid := views[i].valid && y'.s.env.announced == y.s.env.announced))
  {
    hide Act, Good, ViewsOk;
  }

  // The example's views after a whole run.
  ghost function Views(y: Sys, views: seq<View>, actions: seq<Action>): (r: seq<View>)
    requires Good(y) && ViewsOk(y.s, views)
    ensures ViewsOk(Run(y, actions).s, r)
    decreases |actions|
  {
    if actions == [] then views
    else
      ActKeepsGood(y, actions[0]);
      ViewsFollowImages(y, views, actions[0]);
      Views(Act(y, actions[0]), Watched(views, y, Act(y, actions[0]), actions[0]), actions[1..])
  }

  // ... starting from a freshly constructed window with no view made yet.
  ghost function ExampleViews(c: Config, batches: seq<seq<Happening>>, actions: seq<Action>): (r: seq<View>)
    requires Constructed(c, batches)
    ensures ViewsOk(Reach(c, batches, actions).s, r)
  {
    var y := Reach(c, batches, []);
    Views(y, seq(|y.s.win.frames|, _ => View(None, false)), actions)
  }

  /** In every run, over any resizes, the view the example draws a handed frame through shows that
      frame's own image. */
  lemma DrawsIntoHandedImage(c: Config, batches: seq<seq<Happening>>, actions: seq<Action>, sc: Script)
    requires Constructed(c, batches) && Reach(c, batches, actions).blocked.None?
    ensures var y := Reach(c, batches, actions);
            var y' := Act(y, WaitFrame(sc));
            var v := Watched(ExampleViews(c, batches, actions), y, y', WaitFrame(sc));
            y'.frame.Some? ==>
              && y'.frame.value.index < |v|
              && v[y'.frame.value.index] == View(y'.frame.value.image, true)
  {
    hide Act, Reach, ExampleViews;
    ViewsFollowImages(Reach(c, batches, actions), ExampleViews(c, batches, actions), WaitFrame(sc));
  }
}
