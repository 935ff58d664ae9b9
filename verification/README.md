# wlvk: verified models of the frame ring, format negotiation and the video upload

wlvk gives an application Vulkan images that a Wayland compositor scans out directly. Three parts
of it are delicate, and this project models and proves each of them in Dafny 4.11
(`dafny verify dfyconfig.toml` checks everything).

**The frame ring** (`Ring*.dfy`, `Window.dfy`). Four parties share the buffers: the library, the
application, the GPU and the compositor. `Ring.dfy` is the state machine: the library's fields, and
outside them every GPU job, every surface commit with its acquire and release point, every fence,
every image ever created with its size, and every handle in existence. A blocking call takes a
finite script of what the others do meanwhile; when the script runs out the call is still blocked.
`Window.dfy` holds the implementation in the source's own form - a class whose methods update the
fields in place, with the source's loops - and proves each method equal to its transition.
`RingInvariant.dfy`, `RingSteps.dfy` and `RingCommit.dfy` prove one invariant for every step,
`RingRuns.dfy` carries it to every run of any application. `RingTheorems.dfy`, `RingPresents.dfy`,
`RingHandOuts.dfy`, `RingOutcomes.dfy`, `RingWaits.dfy`, `RingReap.dfy`, `RingEvents.dfy`,
`RingSizes.dfy`, `RingTeardown.dfy`, `RingShutdown.dfy` and `RingWitness.dfy` draw the conclusions
from what `RingRuns.Reach`, the set of reachable states, promises. They hold for every buffer count
of at least one, any number of resizes anywhere, any order of releases across slots, timed waits
that fail for no reason, and applications that call in any order.

What is assumed of the outside is written into `Ring.Kernel`, `Ring.Deliverable`, `Ring.Submit` and
`RingRuns.Act`, and is only this: the compositor signals a release point
(`wp_linux_drm_syncobj_surface_v1.set_release_point` of linux-drm-syncobj-v1) only of a commit it
was sent and only once that commit's acquire point is signalled; an acquire point is signalled when
the GPU job whose fence payload was transferred to it is finished; a frame callback
(`wl_surface.frame` of the Wayland core protocol) fires only after a commit has carried it; a
feedback event names an object that still exists; the application submits work only for the frame it
holds, and only on a fence that carries no submission (Vulkan forbids the rest: a submission on a
busy fence changes nothing here). A timeline point counts as signalled once that point or a later
one of the same timeline was released. Image, wl_buffer and descriptor number n name the same
memory.

The monitors `doubleFrees` and `hazards` count destructions of a handle that is not live, and of
memory that an unreleased commit or an unfinished job still uses; the theorems say both stay zero.

**Format negotiation** (`FormatTable.dfy`, `Negotiation.dfy`, `DeviceBuilder.dfy`). The binary
format table and tranche events of linux-dmabuf-v1 (`zwp_linux_dmabuf_feedback_v1`), the memoised
driver query and the filter and choice, and the device builder's extension list and pNext chain.

**The video example's upload** (`Staging.dfy`, `VideoViews.dfy`) and **the presentation
statistics** (`Stats.dfy`).

## Where the code does not keep what one might expect

- With one buffer the ring can wait for ever although everybody keeps to the rules:
  `RingWitness.SingleBufferStalls` is such a run, and `RingTheorems.ReleaseWaitProgress` says the
  compositor owes the awaited buffer, or will once the GPU has drawn a newer one, exactly when there
  are at least two.
- Once something has been presented, `wait_frame` called with a frame in hand never returns another
  one: `RingHandOuts.FrameInHandBlocks`, and `RingTheorems.FrameWaitProgress` says that a callback
  can wake the call exactly when the frame had been presented.
- `wait_frame` is documented to return false once the window is closed (lib/wlvk/wlvk.hpp line 180,
  and line 104 of the repository's own README). Before the first present it does not:
  `RingOutcomes.FirstWaitReturns`.
- The destructor frees every handle of the ring except feedback objects that were still unanswered
  when their slot was committed again: `RingWitness.DestructorLeavesFeedback` is such a run, and
  `RingTeardown.TeardownFreesAll` the exact condition.
- It waits for the GPU but not for the compositor: `RingShutdown.DestroysOnlyHeldInUse` counts the
  handles it destroys under the compositor, and says exactly when there are none.
- The smallest presentation gap is wrong after a repeated timestamp, because zero doubles as "none
  yet": `Stats.RepeatedTimestampForgotten`, and the exact condition `Stats.StreamedMinimumExactIff`.
  The largest is wrong when every gap was negative (`Stats.BackwardsMaximum`, exact condition
  `Stats.StreamedMaximum`), and a gap after a timestamp of zero is not seen at all
  (`Stats.ZeroTimestampUnseen`, exact condition `Stats.SeenGapsAre`).
- The staging planes overlap when a plane's size overflows the 32-bit product of stride and rows:
  `Staging.WrappedPlane`, and the exact condition `Staging.PackedIffNoOverflow`.
- `chain_next` makes an endless chain when the appended chain shares a structure with the old one:
  `DeviceBuilder.ChainTwice`, and the exact condition `DeviceBuilder.Builder.ChainNext`.

## Model

| member | source | states |
|---|---|---|
| RingTheorems.HandedImageIsFree | lib/wlvk/window.cpp:613-659 | In every run, whatever wait_frame hands out is a live image of the window's current size that no unreleased commit holds, and every commit ever made on that slot, in any generation, has been released |
| RingTheorems.NobodyLosesMemory | lib/wlvk/window.cpp:581-609 | In every reachable state the buffer, image and descriptor of every unreleased commit and of every unfinished GPU job still exist, over any number of stacked resizes |
| RingTheorems.UnreleasedBufferIsKept | lib/wlvk/window.cpp:545-555 | The buffer of an unreleased commit k is in slot k mod N or in a retired entry that waits on that slot's release timeline for its point or a later one |
| RingTheorems.NothingFreedInUse | lib/wlvk/window.cpp:525-609 | No run ever destroys a handle or feedback object twice, or memory in use |
| RingSteps.RetiredUnused | lib/wlvk/window.cpp:586-592 | The one release point a retired entry waits for covers every commit of its buffer, and no GPU job writes it |
| RingOutcomes.ReapsExactlyReleased | lib/wlvk/window.cpp:581-609 | If no wait times out and nothing is released meanwhile, a reap destroys exactly the entries whose point is signalled or that have none, and keeps the others in order |
| RingOutcomes.ReapsOnlyReleased | lib/wlvk/window.cpp:581-609 | If no wait times out, whatever is released meanwhile: what is kept, in order, contains every entry still unreleased at the end and none that was released at the start |
| RingReap.ReleasedMemoryIsFreed | lib/wlvk/window.cpp:613-616 | However a wait_frame ends, with prompt waits it has freed the memory of every retired entry that had been given back when it was called |
| RingReap.TimedOutReapKeeps | lib/wlvk/window.cpp:586-592 | Waits that time out free nothing but entries with no point to wait for |
| RingTheorems.HandedFenceIsFree | lib/wlvk/window.cpp:661-677 | For applications that submit once per presented frame: at every hand-out the slot's fence is unattached if and only if no submission was left unpresented, and then every job of the slot is finished |
| RingTheorems.PointsInOrder | lib/wlvk/window.cpp:667-691 | Commit k sets acquire and release point k div N + 1 on the timelines of slot k mod N and attaches a buffer, across resizes |
| RingTheorems.OneOutstandingPoint | lib/wlvk/window.cpp:640-641 | Below a slot's counter every release point is signalled and above it none, so at most one is outstanding |
| RingPresents.PresentAcceptedIff | lib/wlvk/window.cpp:661-672 | A present is accepted if and only if it names the frame in hand and its fence carries a submission; which error belongs to which refusal |
| RingPresents.PresentCommits | lib/wlvk/window.cpp:667-694 | It commits the slot's own image, once, one point after the slot's last, bound to that submission, whose fence is free again |
| RingPresents.FrameInHandIsPresented | lib/wlvk/wlvk.hpp:183-187 | From every state of every run a frame in hand with submitted work is presented after any events, with exactly one commit of its image |
| RingPresents.CycleCommits | lib/wlvk/wlvk.hpp:176-187 | Take a frame, submit, let anything happen, present: exactly one commit, of the image handed out |
| RingTheorems.RetiredCounters | lib/wlvk/window.cpp:545-555 | A retired entry's counter is at most its slot's, and when smaller its point is already signalled |
| RingTheorems.RingClosedForm | lib/wlvk/window.cpp:639-694 | After P presents the next slot is P mod N, slot i's counter is (P+N-1-i) div N, and only the next slot can be handed out |
| RingTheorems.PresentedAtMostOnce | lib/wlvk/window.cpp:662-664 | After a present, and after a resize, a present is refused with no change, whatever events arrive in between |
| RingHandOuts.PresentsAreHandedOut | lib/wlvk/wlvk.hpp:183-187 | In every run, presents and the frame still in hand never outnumber the wait_frame calls that returned a frame |
| RingHandOuts.HandOutsConserved | lib/wlvk/window.cpp:613-695 | From the first present on they grow by exactly that number: no frame handed out is lost |
| RingHandOuts.NoHandOutNoPresent | lib/wlvk/wlvk.hpp:183-187 | With no frame in hand, no run presents anything until wait_frame returns a frame |
| RingHandOuts.PresentedOncePerHandOut | lib/wlvk/wlvk.hpp:183-187 | A run in which wait_frame returns no frame presents at most once, and then no frame is in hand |
| RingHandOuts.UnsuccessfulWait | lib/wlvk/window.cpp:613-648 | A wait_frame that returns no frame leaves the frame in hand as it was, and has resized the ring only if there was none |
| RingHandOuts.ResizedWithoutHandOut | lib/wlvk/window.cpp:613-664 | After a wait_frame that announced a new size but returned no frame, nothing is presented until one is returned |
| RingHandOuts.FrameInHandBlocks | lib/wlvk/window.cpp:621-627 | After the first present, wait_frame with a frame in hand closes or waits for a callback, and that frame stays presentable |
| RingTheorems.OwnershipPartition | lib/wlvk/window.cpp:525-609 | Each of the N*(resizes+1) images, with buffer and descriptor, is in exactly one current slot, one retired entry, or freed, and only images whose replacement on_resize announced are freed |
| RingTheorems.SyncObjectsNeverMove | lib/wlvk/window.cpp:536-543 | Sync objects, timelines and fences stay live on their own slot for ever; a retired entry only borrows the release sync object |
| RingTheorems.PacedByCallbacks | lib/wlvk/window.cpp:621-637 | Presents never exceed frame callbacks by more than one; at most one callback is outstanding and none was dropped |
| RingTheorems.FrameWaitProgress | lib/wlvk/window.cpp:621-637 | A wait for the frame callback can be woken by one if and only if the last handed frame had been presented |
| RingTheorems.FrameWaitCompletes | lib/wlvk/window.cpp:621-627 | Exactly then, one more frame callback takes the same call past that wait |
| RingTheorems.ReleaseWaitProgress | lib/wlvk/window.cpp:639-646 | A wait for a slot waits for the commit N presents ago: it is released, or a pending GPU job holds it up; otherwise a later commit has finished rendering, so that the compositor owes the buffer, or the newest one waits for its GPU job - exactly when N >= 2 |
| RingTheorems.ReleaseWaitCompletes | lib/wlvk/window.cpp:639-658 | From wherever such a wait blocks, that commit's GPU job and its release make the same call hand out a frame |
| RingWitness.SingleBufferStalls | lib/wlvk/window.cpp:639-646 | A contract-keeping run with one buffer that blocks with nothing left for GPU or compositor to do |
| RingWitness.DestructorLeavesFeedback | lib/wlvk/window.cpp:87-157 | A contract-keeping run with one buffer after which the destructor leaves the first feedback object |
| RingTheorems.NoResizeLost | lib/wlvk/window.cpp:525-579 | Unless a resize is pending the window has the last positive size that was recorded; all current images have the window's size, it is positive, and on_resize announced it |
| RingSizes.LastConfigureWins | lib/wlvk/window.cpp:56-68 | After any list of happenings the pending size is the last positive one a toplevel configure in that list asks for, whatever was pending |
| RingSizes.ResizeRequestedIff | lib/wlvk/window.cpp:64-67 | A resize becomes pending exactly when some positive size in the list differs from the window's and came once it was configured |
| RingSizes.LastSizeReachesImages | lib/wlvk/window.cpp:622-637 | The next wait_frame that gets past its callback gives the window and every image the last size asked for before or while it waited |
| RingSizes.SizeOfRun | lib/wlvk/window.cpp:207-218 | In every run the ring has the configured number of slots; unless a resize is pending its size is the last positive one delivered, and the configured one if there was none |
| RingEvents.ListenersRecordRun | lib/wlvk/window.cpp:51-79 | In every run closed, configured, pending size, statistics and frame callbacks are those of the bare list of delivered events: presented times feed the statistics, discards are counted as discards |
| RingWaits.FlagsOfBatch | lib/wlvk/window.cpp:70-79 | A close anywhere in a batch closes the window, a surface configure configures it, a deliverable callback is noticed, and nothing else does any of it |
| RingWaits.ConstructedIff | lib/wlvk/window.cpp:208-216 | Construction succeeds if and only if a surface configure comes in a batch before which none closed the window |
| RingTheorems.FeedbackConserved | lib/wlvk/window.cpp:679-761 | Feedback objects created = presented + discarded + destroyed by resize + live; slots refer only to live, distinct ones |
| RingOutcomes.FirstWaitReturns | lib/wlvk/window.cpp:618-637 | Before the first present wait_frame always hands out a frame, even on a closed window |
| RingOutcomes.ClosedWindowEndsWaiting | lib/wlvk/window.cpp:621-627 | From then on a closed window makes it return false at once |
| RingWaits.WaitBegins | lib/wlvk/window.cpp:613-646 | With nothing delivered yet: exactly when the call closes, waits for its callback, waits for its slot or hands out, and what it has done by then |
| RingWaits.OneMoreBatch | lib/wlvk/window.cpp:621-627 | A call waiting for its callback ends on a close in the next batch, goes on on its callback, and otherwise keeps waiting, whatever would come later |
| RingWaits.NeverWaitsClosed | lib/wlvk/window.cpp:640-646 | No call goes on waiting for its slot on a closed window |
| RingWaits.OneMoreAttempt | lib/wlvk/window.cpp:639-658 | A call waiting for its slot hands it out on a successful wait; on a failed one it ends on a drained close and otherwise keeps waiting |
| RingOutcomes.ReadySlotIsHandedOut | lib/wlvk/window.cpp:628-658 | With its callback received and the slot's point signalled it hands out the slot in turn, having applied and announced exactly the pending resize |
| RingSteps.AwaitedIsReleased | lib/wlvk/window.cpp:639-646 | When the slot's release point is signalled, every commit at least N presents old is released |
| RingSteps.ResizeKeepsInv | lib/wlvk/window.cpp:525-579 | A resize keeps the whole ring invariant |
| RingSteps.ReapKeepsInv | lib/wlvk/window.cpp:581-609 | A reap keeps the invariant and touches only the retired list and its handles |
| RingSteps.GrantedKeepsInv | lib/wlvk/window.cpp:628-637 | Taking the frame callback, resizing and re-arming keep it, and leave the next commit a callback of its own |
| RingInvariant.DispatchKeepsInv | lib/wlvk/window.cpp:56-79 | Every listener keeps it |
| RingInvariant.FeedbackKeepsInv | lib/wlvk/window.cpp:734-756 | The presented and discarded listeners release exactly the slot that refers to the object |
| RingCommit.CommitKeepsInv | lib/wlvk/window.cpp:661-695 | A successful present keeps it |
| RingRuns.NextFrameKeepsInv | lib/wlvk/window.cpp:613-659 | wait_frame keeps it under every script, and neither submits, commits nor touches a fence |
| RingRuns.CommitHonest | lib/wlvk/context.cpp:483-506 | Transferring the fence to the acquire point binds job k to commit k for applications that submit once per present |
| RingRuns.ActKeepsGood | lib/wlvk/window.cpp:613-695 | Every action of any application keeps every property |
| RingRuns.Run | lib/wlvk/window.cpp:613-695 | So does any sequence of actions |
| RingRuns.FirstSlots | lib/wlvk/window.cpp:302-388 | The freshly constructed ring satisfies the invariant |
| RingRuns.AwaitBooting | lib/wlvk/window.cpp:207-218 | Until the first configure only the size request is tracked |
| RingTeardown.TeardownFreesAll | lib/wlvk/window.cpp:87-157 | In every reachable state the destructor frees every handle of the ring exactly once, and leaves exactly those unanswered feedback objects f whose slot was committed again: f + N < the number of commits |
| RingShutdown.DestroysOnlyHeldInUse | lib/wlvk/window.cpp:87-157 | In every reachable state the destructor destroys no memory that GPU work writes, whatever is pending; in use it destroys exactly three handles for each buffer the compositor still holds, and none exactly when it holds none |
| RingTeardown.RecommitDisplacesFeedback | lib/wlvk/window.cpp:679-685 | Committing a slot whose feedback is unanswered leaves that object live and unreferenced |
| RingArithmetic.SlotAndPointClosed | lib/wlvk/window.cpp:691-694 | Counting round by round, commit k falls to slot k mod N with point k div N + 1 |
| RingArithmetic.CounterClosed | lib/wlvk/window.cpp:691-694 | Slot i has been committed (P+N-1-i) div N times after P commits |
| RingArithmetic.SameSlot | lib/wlvk/window.cpp:691-694 | Commits of one slot are N apart and have growing points |
| Window.Impl.Deliver | lib/wlvk/window.cpp:56-79 | Any one event or kernel step has its transition's effect and keeps the class invariant |
| Window.Impl.DispatchPending | lib/wlvk/window.cpp:239-281 | So does any queue of them |
| Window.Impl.OnFrameDone | lib/wlvk/window.cpp:74-79 | The listener's new state is the transition's, and keeps the class invariant |
| Window.Impl.OnToplevelConfigure | lib/wlvk/window.cpp:56-68 | The same for a configure: every positive size becomes the pending one, and requests a resize exactly when it is not the window's |
| Window.Impl.OnPresented | lib/wlvk/window.cpp:709-745 | The same for presented |
| Window.Impl.OnDiscarded | lib/wlvk/window.cpp:747-761 | The same for discarded |
| Window.Impl.RecordPresented | lib/wlvk/window.cpp:719-732 | The statistics update equals the accumulator's step |
| Window.Impl.ForgetPresentFeedback | lib/wlvk/window.cpp:734-739 | The search loop clears the first slot that refers to the object |
| Window.Impl.WaitReleasePoint | lib/wlvk/context.cpp:508-514 | True only if that point or a later one is signalled; may fail regardless |
| Window.Impl.ReapRetired | lib/wlvk/window.cpp:581-609 | The in-place erasing loop performs the reap |
| Window.Impl.RetireSlots | lib/wlvk/window.cpp:531-567 | The slot loop moves memory to the retired list, sync objects to fresh slots, and destroys each feedback object |
| Window.Impl.CreateDmabufResources | lib/wlvk/window.cpp:390-521 | Every slot gets new memory of the window's size |
| Window.Impl.HandleResize | lib/wlvk/window.cpp:525-579 | The method performs the resize |
| Window.Impl.ArmFrame | lib/wlvk/window.cpp:281-287 | One new callback, not yet committed |
| Window.Impl.NextFrame | lib/wlvk/window.cpp:613-659 | The method is wait_frame's transition, keeps the class invariant, and what it returns is safe to draw into |
| Window.Impl.PollForFrame | lib/wlvk/window.cpp:622-624 | The callback loop |
| Window.Impl.AwaitSlot | lib/wlvk/window.cpp:639-658 | The release loop and the hand-out; it never keeps waiting on a window that closed meanwhile |
| Window.Impl.CommitFrame | lib/wlvk/window.cpp:661-695 | The method is present's transition, keeps the class invariant, accepts exactly the frame in hand with submitted work, and changes nothing when it refuses |
| Window.Impl.Initialise | lib/wlvk/window.cpp:190-219 | Construction yields the initial ring, which is valid for every positive configuration |
| Window.Impl.CreateSyncObjects | lib/wlvk/window.cpp:347-371 | Two sync objects, two timelines and a fence of its own for every slot |
| Window.Impl.Destruct | lib/wlvk/window.cpp:87-157 | The destructor leaves no live handle of the ring, frees none twice, and destroys in use only what the compositor holds |
| Stats.StreamedIsWholeHistory | lib/wlvk/window.cpp:714-732 | On strictly increasing timestamps min, max, late and presented are the whole history's |
| Stats.StreamedMinimum | lib/wlvk/window.cpp:719-723 | For any timestamps: exact once a gap was negative, otherwise the least seen gap after the last repeated timestamp, and zero exactly when no seen gap came after it |
| Stats.StreamedMinimumExactIff | lib/wlvk/window.cpp:719-723 | For any timestamps it is the least seen gap if and only if some gap is seen and, unless a gap was negative, either no timestamp was repeated or the newest one is a repeat |
| Stats.StreamedMaximum | lib/wlvk/window.cpp:724-726 | For any timestamps the maximum is exact if and only if some seen gap is not negative, and zero otherwise |
| Stats.StreamedLate | lib/wlvk/window.cpp:727-729 | late counts exactly the seen gaps with 2*gap > 3*refresh and refresh > 0 |
| Stats.SeenGapsAre | lib/wlvk/window.cpp:719-720 | The seen gaps are those after a nonzero timestamp; without a zero timestamp they are all gaps in order |
| Stats.ZeroTimestampUnseen | lib/wlvk/window.cpp:719-720 | Frames at 0 and 5 ns report no gap |
| Stats.BackwardsMaximum | lib/wlvk/window.cpp:724-726 | Frames at 9 and 5 ns report a maximum of 0 for a gap of -4 |
| Stats.RepeatedTimestampForgotten | lib/wlvk/window.cpp:721-723 | A three-frame history whose smallest gap is reported wrongly |
| Stats.TvNsFitsIff | lib/wlvk/window.cpp:715-718 | Exactly which timestamps fit signed 64 bits; all with tv_sec_hi <= 1 do |
| FormatTable.DecodeInvertsEncode | lib/wlvk/context.cpp:549-559 | Decoding an index inverts the 16-byte encoding, whatever the padding, and refuses indices past the table |
| FormatTable.OffersAreAllTranches | lib/wlvk/context.cpp:544-568 | The offers are the in-order concatenation of all in-range entries, however spread over events and tranches |
| FormatTable.FeedbackRoundTrip | lib/wlvk/context.cpp:529-568 | A compositor's table and tranches arrive as exactly the offers it meant |
| FormatTable.CompositorRoundTrip | lib/wlvk/context.cpp:544-568 | The same with the tranches' index lists written as two-byte indices |
| FormatTable.LittleEndianValue | lib/wlvk/context.cpp:555-558 | Numbers are read least significant byte first, at each width |
| FormatTable.IndicesRoundTrip | lib/wlvk/context.cpp:547-550 | Reading an index array inverts writing it, and ignores an odd last byte |
| FormatTable.ColourFormatsMatch | lib/wlvk/context.cpp:32-47 | A packed colour code maps to the format with the same channels in the same bytes, and no other code maps to a colour format |
| FormatTable.MappedFormats | lib/wlvk/context.cpp:32-47 | NV12 and P010 map to their own formats, and nothing else is mapped |
| Negotiation.Negotiator.OnTrancheFormats | lib/wlvk/context.cpp:544-560 | The decoding loop appends exactly the selected candidates |
| Negotiation.Negotiator.OnTrancheDone | lib/wlvk/context.cpp:562-568 | The candidates become offers and are cleared |
| Negotiation.QueryDecidesSupport | lib/wlvk/context.cpp:318-322 | Looking a modifier up in a driver query decides exactly the cacheless rule |
| Negotiation.AdmitsIffNeeded | lib/wlvk/context.cpp:54-106 | A modifier is kept if and only if it has the feature of each usage bit, bit by bit in Vulkan's numbering |
| Negotiation.SupportedIffUsable | lib/wlvk/context.cpp:313-322 | The rule for an offer in those terms |
| Negotiation.DefaultChoiceIsUsable | lib/wlvk/context.cpp:328-336 | Without a policy the chosen offer is the first usable in those terms, and negotiation fails exactly when none is |
| Negotiation.Negotiator.ModifierSupportOf | lib/wlvk/context.cpp:74-111 | The cache always answers what the driver says, with at most one entry per format |
| Negotiation.Negotiator.QueryDriver | lib/wlvk/context.cpp:84-107 | The filter loop keeps exactly the modifiers with the feature of each usage bit |
| Negotiation.Negotiator.FilterOffers | lib/wlvk/context.cpp:313-326 | driver_ok is the cacheless filter of the offers |
| Negotiation.DriverOkIsSupportedSubsequence | lib/wlvk/context.cpp:313-326 | It is a subsequence of the offers holding each supported offer as often as sent, and nothing else |
| Negotiation.DefaultChoiceIsFirstSupported | lib/wlvk/context.cpp:328-336 | Without a policy the choice exists exactly when an offer is supported, and is the first one |
| Negotiation.PolicyChoiceMustBeOffered | lib/wlvk/context.cpp:329-348 | A policy's answer is taken if and only if it is one of the offers; which error belongs to which refusal |
| Negotiation.MoreUsageNeverHelps | lib/wlvk/context.cpp:54-106 | More usage keeps a subsequence of driver_ok, never moves the default choice earlier, and does not affect blind formats |
| Negotiation.Negotiator.ResolveFormat | lib/wlvk/context.cpp:308-352 | The cached negotiation equals the cacheless one, the default choice is the first offer with the feature bits the usage needs, and a failure keeps the earlier choice |
| DeviceBuilder.Builder.AddExtensions | lib/wlvk/context.cpp:574-587 | One call appends the first occurrence of each new request |
| DeviceBuilder.CallsAreOneCall | lib/wlvk/context.cpp:574-587 | Splitting requests over calls makes no difference |
| DeviceBuilder.AddsEachNewRequestOnce | lib/wlvk/context.cpp:574-587 | Every new request is added once and nothing else is |
| DeviceBuilder.AddsInOrder | lib/wlvk/context.cpp:574-587 | Additions are in order of first request |
| DeviceBuilder.EnabledExtensions | lib/wlvk/context.cpp:360-374 | The device is created with the library's extensions and each requested one, none twice |
| DeviceBuilder.Builder.ChainNext | lib/wlvk/context.cpp:589-596 | The tail walk ends and yields the old chain followed by the new one, or a chain without end exactly when they share a node |
| DeviceBuilder.ChainTwice | lib/wlvk/context.cpp:589-596 | Chaining one structure twice gives a chain without end |
| Staging.AlignUpRounds | examples/video/main.cpp:325-326 | The bit mask rounds up to the next multiple of 256 |
| Staging.PackedIffNoOverflow | examples/video/main.cpp:319-327 | The planes are aligned, disjoint and inside the buffer if, and with pixels only if, no plane overflows 32 bits |
| Staging.PackedTightly | examples/video/main.cpp:319-327 | Without overflow each plane starts at the first multiple of 256 after the one before, and the buffer ends with the last |
| Staging.WrappedPlane | examples/video/main.cpp:325-327 | With stride and height 65536 the second plane starts on top of the first |
| Staging.SmallestFrame | examples/video/main.cpp:319-327 | A 2x2 frame meets everything an upload asks for |
| Staging.CopyPicture | examples/video/main.cpp:476-488 | The interleaved row loops leave all rows of all three planes in place |
| Staging.BuildRegions | examples/video/main.cpp:522-537 | The regions carry offsets, strides and extents of the layout |
| Staging.RegionsReadBack | examples/video/main.cpp:522-539 | Reading the buffer by the regions' addressing gives the source pixels |
| Staging.Upload | examples/video/main.cpp:474-539 | Packing, copying and reading back is the identity on all three planes |
| VideoViews.SlotViews.OnResize | examples/video/main.cpp:140-144 | Every view is marked invalid and otherwise kept |
| VideoViews.SlotViews.Target | examples/video/main.cpp:458-472 | An invalid view is replaced by one of the handed image |
| VideoViews.ValidViewsAreReused | examples/video/main.cpp:458-472 | Without a resize valid views stay, and only the handed slot's view is ever made anew |
| VideoViews.DrawsIntoHandedImage | examples/video/main.cpp:454-472 | In every run the view a handed frame is drawn through shows that frame's own image |

## Left out

- Vulkan instance, device, allocator and pool creation, layout, pitch and plane-count queries: foreign calls; creating an image is allocating the next handle, and a frame's format, pitch and plane layout are not carried.
- Wayland registry binding, polling, flushing and display errors; the DRM node and file-descriptor sharing; reading the format table from its descriptor: input and output, replaced by the events they deliver.
- Failures of foreign calls in the middle of a function: only the refusals decided before anything changes are modelled. A fence whose export yields no descriptor although work was submitted is not distinguished.
- Calls into the application from on_resize, on_present and log: on_resize is the announcement it makes, the others have no effect on the modelled state.
- Unsigned 64-bit wrap-around of counters and statistics: they are unbounded here.
- Stats.TvNsFitsIff: does not model the overflow itself, which is undefined in the source; elsewhere timestamps are unbounded.
- Window.Impl.CreateDmabufResources: does not carry pitch, plane count and plane layout, which are answers of foreign queries that nothing else here depends on.
- The descriptors over which the sync objects are shared (acquire_fd, release_fd): opened, moved and closed with their slot's sync objects, they are not counted separately.
- The window's own Wayland and Vulkan objects outside the ring: the destructor's part in them is not modelled; it never destroys compositor_, dmabuf_, syncobj_manager_, default_feedback_ and presentation_ (lib/wlvk/window.cpp lines 87-182).
- Window.Impl.WaitReleasePoint: does not model how long a wait lasts, because nothing may depend on the timeout.
- Window.Impl.Destruct: does not promise that the compositor has given every buffer back, because the destructor does not wait for it.
- DeviceBuilder.Builder.ChainNext: does not model appending a structure whose own chain has no end.
- Staging.PackedIffNoOverflow: does not model negative strides, for which the source's addressing is not meant.
- Decoding, pipelines, barriers and shaders of the video example, its staging buffer creation, and the clear and static examples: opaque libraries or thin loops.
- The conversion of gaps to milliseconds and the colour computation of the clear example: floating point.
