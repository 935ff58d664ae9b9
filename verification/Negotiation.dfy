/** Format negotiation: the memoised driver query, the filter of the compositor's offers, and the
    choice among them. */
module Negotiation {
  import opened Prelude
  import opened FormatTable

  // ---- image usage and format features ----

  const USAGE_TRANSFER_SRC: bv32 := 0x1
  const USAGE_TRANSFER_DST: bv32 := 0x2
  const USAGE_SAMPLED: bv32 := 0x4
  const USAGE_STORAGE: bv32 := 0x8
  const USAGE_COLOR_ATTACHMENT: bv32 := 0x10

  const FEATURE_SAMPLED_IMAGE: bv64 := 0x1
  const FEATURE_STORAGE_IMAGE: bv64 := 0x2
  const FEATURE_COLOR_ATTACHMENT: bv64 := 0x80
  const FEATURE_TRANSFER_SRC: bv64 := 0x4000
  const FEATURE_TRANSFER_DST: bv64 := 0x8000

  function FeatureBitsForUsage(usage: bv32): bv64 {
    (if usage & USAGE_TRANSFER_SRC != 0 then FEATURE_TRANSFER_SRC else 0)
    | (if usage & USAGE_TRANSFER_DST != 0 then FEATURE_TRANSFER_DST else 0)
    | (if usage & USAGE_SAMPLED != 0 then FEATURE_SAMPLED_IMAGE else 0)
    | (if usage & USAGE_STORAGE != 0 then FEATURE_STORAGE_IMAGE else 0)
    | (if usage & USAGE_COLOR_ATTACHMENT != 0 then FEATURE_COLOR_ATTACHMENT else 0)
  }

  // What the driver reports for one modifier of a format.
  datatype ModifierProperties = ModifierProperties(modifier: nat, features: bv64)

  type Driver = VkFormat -> seq<ModifierProperties>

  predicate Admits(p: ModifierProperties, usage: bv32) {
    p.features & FeatureBitsForUsage(usage) == FeatureBitsForUsage(usage)
  }

  // Vulkan's own numbering, bit by bit: what each bit of VkImageUsageFlags needs among the bits of
  // VkFormatFeatureFlags2. Transfer source, transfer destination, sampled, storage, and colour
  // attachment; other usage bits need nothing.
  predicate HasNeededFeatures(features: bv64, usage: bv32) {
    && (usage & 0x1 != 0 ==> features & 0x4000 != 0)
    && (usage & 0x2 != 0 ==> features & 0x8000 != 0)
    && (usage & 0x4 != 0 ==> features & 0x1 != 0)
    && (usage & 0x8 != 0 ==> features & 0x2 != 0)
    && (usage & 0x10 != 0 ==> features & 0x80 != 0)
  }

  /** A modifier is admitted if and only if it has the feature of each usage bit. */
  lemma AdmitsIffNeeded(p: ModifierProperties, usage: bv32)
    ensures Admits(p, usage) <==> HasNeededFeatures(p.features, usage)
  {
  }

  // The rule without cache or lists: a mapped format, and either a driver that lists no modifiers
  // for it or one that lists this modifier with every feature the usage needs.
  predicate Supported(driver: Driver, usage: bv32, o: FormatOffer) {
    && o.vkFormat != Undefined
    && (driver(o.vkFormat) == []
        || exists p | p in driver(o.vkFormat) :: p.modifier == o.modifier && Admits(p, usage))
  }

  // ---- selections ----

  // The supported offers, in compositor order.
  function DriverOk(driver: Driver, usage: bv32, offers: seq<FormatOffer>): seq<FormatOffer> {
    if offers == [] then []
    else if Supported(driver, usage, offers[0]) then [offers[0]] + DriverOk(driver, usage, offers[1..])
    else DriverOk(driver, usage, offers[1..])
  }

  /** driver_ok is a subsequence of the offers that holds every supported offer as often as the
      compositor sent it, and nothing else. */
  lemma {:induction false} DriverOkIsSupportedSubsequence(driver: Driver, usage: bv32, offers: seq<FormatOffer>)
    ensures IsSubsequence(DriverOk(driver, usage, offers), offers)
    ensures forall o :: multiset(DriverOk(driver, usage, offers))[o]
                        == if Supported(driver, usage, o) then multiset(offers)[o] else 0
    decreases |offers|
  {
    if offers != [] {
      var kept, o := DriverOk(driver, usage, offers[1..]), offers[0];
      DriverOkIsSupportedSubsequence(driver, usage, offers[1..]);
      assert offers == [o] + offers[1..];
      if Supported(driver, usage, o) {
        assert ([o] + kept)[1..] == kept;
      } else {
        SubsequenceGrows(kept, offers);
      }
    }
  }

  // ---- the choice ----

  datatype NegotiationError = NoOffers | NoUsableOffer | ChoiceNotOffered

  // The application's policy, when it has one.
  type Policy = Option<(seq<FormatOffer>, seq<FormatOffer>) -> Option<FormatOffer>>

  // resolve_format without its cache.
  function Resolve(driver: Driver, usage: bv32, offers: seq<FormatOffer>, policy: Policy)
    : Result<FormatOffer, NegotiationError>
  {
    if offers == [] then Err(NoOffers) else
      var ok := DriverOk(driver, usage, offers);
      var choice := if policy.Some? then policy.value(offers, ok) else if ok != [] then Some(ok[0]) else None;
      if choice.None? then Err(NoUsableOffer)
      else if choice.value in offers then Ok(choice.value)
      else Err(ChoiceNotOffered)
  }

  // The position of the first supported offer, or the number of offers.
  function FirstSupported(driver: Driver, usage: bv32, offers: seq<FormatOffer>): (i: nat)
    ensures i <= |offers|
    ensures forall j | 0 <= j < i :: !Supported(driver, usage, offers[j])
    ensures i < |offers| ==> Supported(driver, usage, offers[i])
  {
    if offers == [] then 0
    else if Supported(driver, usage, offers[0]) then 0
    else 1 + FirstSupported(driver, usage, offers[1..])
  }

  lemma {:induction false} FirstOfDriverOk(driver: Driver, usage: bv32, offers: seq<FormatOffer>)
    ensures var i := FirstSupported(driver, usage, offers);
            if i == |offers| then DriverOk(driver, usage, offers) == []
            else DriverOk(driver, usage, offers) != [] && DriverOk(driver, usage, offers)[0] == offers[i]
    decreases |offers|
  {
    if offers != [] && !Supported(driver, usage, offers[0]) {
      FirstOfDriverOk(driver, usage, offers[1..]);
    }
  }

  /** Without a policy negotiation succeeds exactly when some offer is supported, and then takes
      the first one in compositor order. */
  lemma DefaultChoiceIsFirstSupported(driver: Driver, usage: bv32, offers: seq<FormatOffer>)
    ensures var r := Resolve(driver, usage, offers, None);
            && (r.Ok? <==> exists i | 0 <= i < |offers| :: Supported(driver, usage, offers[i]))
            && (r.Ok? ==> exists i | 0 <= i < |offers| ::
                  && r.value == offers[i] && Supported(driver, usage, offers[i])
                  && forall j | 0 <= j < i :: !Supported(driver, usage, offers[j]))
            && (r.Err? ==> r.error == if offers == [] then NoOffers else NoUsableOffer)
  {
    var i := FirstSupported(driver, usage, offers);
    FirstOfDriverOk(driver, usage, offers);
    if i < |offers| {
      assert Resolve(driver, usage, offers, None).value == offers[i];
    }
  }

  // The offer's format is mapped, and the driver either lists no modifiers for it or lists this
  // modifier with the feature of each usage bit.
  ghost predicate Usable(driver: Driver, usage: bv32, o: FormatOffer) {
    && o.vkFormat != Undefined
    && (|| |driver(o.vkFormat)| == 0
        || exists p | p in driver(o.vkFormat) :: p.modifier == o.modifier && HasNeededFeatures(p.features, usage))
  }

  lemma SupportedIffUsable(driver: Driver, usage: bv32, o: FormatOffer)
    ensures Supported(driver, usage, o) <==> Usable(driver, usage, o)
  {
    hide Admits, HasNeededFeatures;
    forall p: ModifierProperties
      ensures Admits(p, usage) <==> HasNeededFeatures(p.features, usage)
    {
      AdmitsIffNeeded(p, usage);
    }
  }

  // o is the first usable one.
  ghost predicate FirstUsable(driver: Driver, usage: bv32, offers: seq<FormatOffer>, o: FormatOffer) {
    exists i | 0 <= i < |offers| ::
      && o == offers[i] && Usable(driver, usage, offers[i])
      && forall j | 0 <= j < i :: !Usable(driver, usage, offers[j])
  }

  /** Without a policy negotiation fails exactly when no offer is usable, and otherwise takes the
      first that is: what is chosen can be used as asked, by the driver's own feature bits. */
  lemma DefaultChoiceIsUsable(driver: Driver, usage: bv32, offers: seq<FormatOffer>)
    ensures var r := Resolve(driver, usage, offers, None);
            && (r.Err? <==> forall i | 0 <= i < |offers| :: !Usable(driver, usage, offers[i]))
            && (r.Ok? ==> FirstUsable(driver, usage, offers, r.value))
  {
    hide Supported, Usable, Resolve;
    DefaultChoiceIsFirstSupported(driver, usage, offers);
    forall o: FormatOffer
      ensures Supported(driver, usage, o) <==> Usable(driver, usage, o)
    {
      SupportedIffUsable(driver, usage, o);
    }
  }

  /** A policy's answer is taken if and only if it is one of the compositor's offers, supported by
      the driver or not. */
  lemma PolicyChoiceMustBeOffered(driver: Driver, usage: bv32, offers: seq<FormatOffer>,
                                  policy: (seq<FormatOffer>, seq<FormatOffer>) -> Option<FormatOffer>)
    ensures var answer := policy(offers, DriverOk(driver, usage, offers));
            var r := Resolve(driver, usage, offers, Some(policy));
            && (r.Ok? <==> answer.Some? && answer.value in offers)
            && (r.Ok? ==> r.value == answer.value)
            && (r.Err? ==> r.error == if offers == [] then NoOffers
                                      else if answer.None? then NoUsableOffer else ChoiceNotOffered)
  {
  }

  // ---- more usage, fewer offers ----

  predicate UsageIncludes(more: bv32, less: bv32) {
    more & less == less
  }

  lemma AdmitsShrinks(p: ModifierProperties, more: bv32, less: bv32)
    requires UsageIncludes(more, less) && Admits(p, more)
    ensures Admits(p, less)
  {
  }

  lemma SupportShrinks(driver: Driver, more: bv32, less: bv32, o: FormatOffer)
    requires UsageIncludes(more, less) && Supported(driver, more, o)
    ensures Supported(driver, less, o)
  {
    hide Admits, UsageIncludes;
    if driver(o.vkFormat) != [] {
      var p :| p in driver(o.vkFormat) && p.modifier == o.modifier && Admits(p, more);
      AdmitsShrinks(p, more, less);
    }
  }

  /** Asking for more usage keeps a subsequence of the offers, never moves the default choice to an
      earlier offer, and makes no difference to formats the driver lists no modifiers for. */
  lemma {:induction false} MoreUsageNeverHelps(driver: Driver, more: bv32, less: bv32, offers: seq<FormatOffer>)
    requires UsageIncludes(more, less)
    ensures IsSubsequence(DriverOk(driver, more, offers), DriverOk(driver, less, offers))
    ensures FirstSupported(driver, less, offers) <= FirstSupported(driver, more, offers)
    ensures forall o: FormatOffer | driver(o.vkFormat) == [] :: Supported(driver, more, o) == Supported(driver, less, o)
    decreases |offers|
  {
    hide Supported, UsageIncludes;
    if offers != [] {
      MoreUsageNeverHelps(driver, more, less, offers[1..]);
      var a, b := DriverOk(driver, more, offers[1..]), DriverOk(driver, less, offers[1..]);
      var o := offers[0];
      if Supported(driver, more, o) {
        SupportShrinks(driver, more, less, o);
        assert ([o] + a)[1..] == a && ([o] + b)[1..] == b;
      } else if Supported(driver, less, o) {
        assert ([o] + b)[1..] == b;
        SubsequenceGrows(a, [o] + b);
      }
    }
    BlindFormatsIgnoreUsage(driver, more, less);
  }

  lemma BlindFormatsIgnoreUsage(driver: Driver, a: bv32, b: bv32)
    ensures forall o: FormatOffer | driver(o.vkFormat) == [] :: Supported(driver, a, o) == Supported(driver, b, o)
  {
    hide Admits;
  }

  // ---- the cache ----

  datatype ModifierSupport = ModifierSupport(format: VkFormat, blind: bool, modifiers: seq<nat>)

  function Admitted(props: seq<ModifierProperties>, usage: bv32): seq<nat> {
    if props == [] then []
    else if Admits(props[0], usage) then [props[0].modifier] + Admitted(props[1..], usage)
    else Admitted(props[1..], usage)
  }

  // What a query of the driver gives for one format.
  function Query(driver: Driver, usage: bv32, format: VkFormat): ModifierSupport {
    ModifierSupport(format, driver(format) == [], Admitted(driver(format), usage))
  }

  // Every entry is what the driver says, and no format has two.
  ghost predicate CacheOk(cache: seq<ModifierSupport>, driver: Driver, usage: bv32) {
    && (forall i | 0 <= i < |cache| :: cache[i] == Query(driver, usage, cache[i].format))
    && (forall i, j | 0 <= i < j < |cache| :: cache[i].format != cache[j].format)
  }

  lemma {:induction false} AdmittedContains(props: seq<ModifierProperties>, usage: bv32, m: nat)
    ensures m in Admitted(props, usage) <==> exists p | p in props :: p.modifier == m && Admits(p, usage)
    decreases |props|
  {
    hide Admits;
    if props != [] {
      AdmittedContains(props[1..], usage, m);
      assert props == [props[0]] + props[1..];
    }
  }

  // The modifiers a query keeps, by the driver's own feature bits.
  lemma QueryListsUsable(driver: Driver, usage: bv32, format: VkFormat)
    ensures forall m :: m in Query(driver, usage, format).modifiers <==>
              exists p | p in driver(format) :: p.modifier == m && HasNeededFeatures(p.features, usage)
  {
    hide Admits, HasNeededFeatures;
    forall m
      ensures m in Query(driver, usage, format).modifiers <==>
                exists p | p in driver(format) :: p.modifier == m && HasNeededFeatures(p.features, usage)
    {
      AdmittedContains(driver(format), usage, m);
      forall p: ModifierProperties
        ensures Admits(p, usage) <==> HasNeededFeatures(p.features, usage)
      {
        AdmitsIffNeeded(p, usage);
      }
    }
  }

  /** Looking an offer up in a query's answer decides exactly the cacheless rule. */
  lemma QueryDecidesSupport(driver: Driver, usage: bv32, o: FormatOffer)
    ensures o.vkFormat != Undefined && (Query(driver, usage, o.vkFormat).blind
                                        || o.modifier in Query(driver, usage, o.vkFormat).modifiers)
            <==> Supported(driver, usage, o)
  {
    hide Admits;
    AdmittedContains(driver(o.vkFormat), usage, o.modifier);
  }

  // ---- the implementation ----

  class Negotiator {
    const driver: Driver
    const usage: bv32
    var formatTable: seq<byte>
    var trancheCandidates: seq<(nat, nat)>
    var offers: seq<FormatOffer>
    var driverOk: seq<FormatOffer>
    var chosen: Option<FormatOffer>
    var modifierCache: seq<ModifierSupport>

    constructor (driver: Driver, usage: bv32)
      ensures this.driver == driver && this.usage == usage && Valid()
      ensures Received() == Feedback([], [], []) && chosen == None
    {
      this.driver, this.usage := driver, usage;
      formatTable, trancheCandidates, offers, driverOk := [], [], [], [];
      chosen, modifierCache := None, [];
    }

    ghost predicate Valid()
      reads this
    {
      CacheOk(modifierCache, driver, usage)
    }

    ghost function Received(): Feedback
      reads this
    {
      Feedback(formatTable, trancheCandidates, offers)
    }

    method OnFormatTable(table: seq<byte>)
      modifies this`formatTable
      ensures Received() == Receive(old(Received()), FormatTableEvent(table))
    {
      formatTable := table;
    }

    method OnTrancheFormats(a: seq<byte>)
      modifies this`trancheCandidates
      ensures Received() == Receive(old(Received()), TrancheFormatsEvent(a))
    {
      hide DecodeEntry, LittleEndian;
      var idx := Indices(a);
      var i := 0;
      while i < |idx|
        invariant i <= |idx|
        invariant trancheCandidates + Candidates(formatTable, idx[i..])
                  == old(trancheCandidates) + Candidates(formatTable, idx)
      {
        assert idx[i..][1..] == idx[i + 1..];
        var entry := DecodeEntry(formatTable, idx[i]);
        if entry.Some? {
          trancheCandidates := trancheCandidates + [entry.value];
        }
        i := i + 1;
      }
    }

    method OnTrancheDone()
      modifies this`offers, this`trancheCandidates
      ensures Received() == Receive(old(Received()), TrancheDoneEvent)
    {
      hide VkFormatFor;
      var i := 0;
      while i < |trancheCandidates|
        invariant i <= |trancheCandidates| && trancheCandidates == old(trancheCandidates)
        invariant offers + Offers(trancheCandidates[i..]) == old(offers) + Offers(trancheCandidates)
      {
        assert trancheCandidates[i..][1..] == trancheCandidates[i + 1..];
        var (fourcc, modifier) := trancheCandidates[i];
        offers := offers + [FormatOffer(fourcc, VkFormatFor(fourcc), modifier)];
        i := i + 1;
      }
      trancheCandidates := [];
    }

    // The cached answer, queried and remembered on first use.
    method ModifierSupportOf(format: VkFormat) returns (sup: ModifierSupport)
      requires Valid()
      modifies this`modifierCache
      ensures Valid() && sup == Query(driver, usage, format) && sup in modifierCache
      ensures old(modifierCache) <= modifierCache
      ensures (exists e | e in old(modifierCache) :: e.format == format) ==> modifierCache == old(modifierCache)
    {
      hide Query;
      var i := 0;
      while i < |modifierCache|
        invariant i <= |modifierCache|
        invariant forall j | 0 <= j < i :: modifierCache[j].format != format
      {
        if modifierCache[i].format == format {
          return modifierCache[i];
        }
        i := i + 1;
      }
      sup := QueryDriver(format);
      modifierCache := modifierCache + [sup];
    }

    method QueryDriver(format: VkFormat) returns (sup: ModifierSupport)
      ensures sup == Query(driver, usage, format) && sup.format == format
      ensures sup.blind <==> |driver(format)| == 0
      ensures forall m :: m in sup.modifiers <==>
                exists p | p in driver(format) :: p.modifier == m && HasNeededFeatures(p.features, usage)
    {
      hide Admits, HasNeededFeatures;
      QueryListsUsable(driver, usage, format);
      var mods := driver(format);
      if |mods| == 0 {
        return ModifierSupport(format, true, []);
      }
      var admitted: seq<nat> := [];
      var i := 0;
      while i < |mods|
        invariant i <= |mods|
        invariant admitted + Admitted(mods[i..], usage) == Admitted(mods, usage)
      {
        assert mods[i..][1..] == mods[i + 1..];
        if Admits(mods[i], usage) {
          admitted := admitted + [mods[i].modifier];
        }
        i := i + 1;
      }
      sup := ModifierSupport(format, false, admitted);
    }

    method FilterOffers()
      requires Valid()
      modifies this`driverOk, this`modifierCache
      ensures Valid() && driverOk == DriverOk(driver, usage, offers)
    {
      hide Query, Supported;
      driverOk := [];
      var i := 0;
      while i < |offers|
        invariant i <= |offers| && Valid()
        invariant driverOk + DriverOk(driver, usage, offers[i..]) == DriverOk(driver, usage, offers)
      {
        assert offers[i..][1..] == offers[i + 1..];
        QueryDecidesSupport(driver, usage, offers[i]);
        if offers[i].vkFormat != Undefined {
          var sup := ModifierSupportOf(offers[i].vkFormat);
          if sup.blind || offers[i].modifier in sup.modifiers {
            driverOk := driverOk + [offers[i]];
          }
        }
        i := i + 1;
      }
    }

    /** resolve_format: the cached negotiation is the cacheless one, and a failure leaves the
        earlier choice in place. */
    method ResolveFormat(policy: Policy) returns (r: Result<FormatOffer, NegotiationError>)
      requires Valid()
      modifies this`driverOk, this`chosen, this`modifierCache
      ensures Valid() && r == Resolve(driver, usage, offers, policy)
      ensures offers != [] ==> driverOk == DriverOk(driver, usage, offers)
      ensures offers == [] ==> driverOk == old(driverOk) && modifierCache == old(modifierCache)
      ensures chosen == if r.Ok? then Some(r.value) else old(chosen)
      ensures policy.None? && r.Ok? ==> FirstUsable(driver, usage, offers, r.value)
      ensures policy.None? && r.Err? ==> forall i | 0 <= i < |offers| :: !Usable(driver, usage, offers[i])
    {
      hide Supported, Usable, FirstUsable, DriverOk;
      DefaultChoiceIsUsable(driver, usage, offers);
      if |offers| == 0 {
        return Err(NoOffers);
      }
      FilterOffers();
      var choice: Option<FormatOffer> := None;
      if policy.Some? {
        choice := policy.value(offers, driverOk);
      } else if |driverOk| > 0 {
        choice := Some(driverOk[0]);
      }
      if choice.None? {
        return Err(NoUsableOffer);
      }
      var known, i := false, 0;
      while i < |offers| && !known
        invariant i <= |offers|
        invariant known ==> choice.value in offers
        invariant !known ==> choice.value !in offers[..i]
      {
        if offers[i] == choice.value {
          known := true;
        }
        i := i + 1;
      }
      if !known {
        return Err(ChoiceNotOffered);
      }
      chosen := choice;
      return Ok(choice.value);
    }
  }
}
