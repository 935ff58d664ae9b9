/** The dmabuf feedback listeners: a binary table of format entries, tranches of indices into it,
    and the offers they add up to. */
module FormatTable {
  import opened Prelude

  type byte = x: int | 0 <= x < 256

  // memcpy into an integer on the little-endian machines the protocol's native byte order means.
  function LittleEndian(b: seq<byte>): nat {
    if b == [] then 0 else b[0] + 256 * LittleEndian(b[1..])
  }

  function Bytes(n: nat, count: nat): (b: seq<byte>)
    ensures |b| == count
  {
    if count == 0 then [] else [n % 256] + Bytes(n / 256, count - 1)
  }

  function Power256(count: nat): nat {
    if count == 0 then 1 else 256 * Power256(count - 1)
  }

  lemma {:induction false} BytesRoundTrip(n: nat, count: nat)
    requires n < Power256(count)
    ensures LittleEndian(Bytes(n, count)) == n
    decreases count
  {
    if count > 0 {
      BytesRoundTrip(n / 256, count - 1);
    }
  }

  /** The first byte is the least significant, at each width the listeners read. */
  lemma LittleEndianValue(b: seq<byte>)
    ensures |b| == 2 ==> LittleEndian(b) == b[0] as int + 0x100 * b[1] as int
    ensures |b| == 4 ==> LittleEndian(b) == LittleEndian(b[..2]) + 0x1_0000 * LittleEndian(b[2..])
    ensures |b| == 8 ==> LittleEndian(b) == LittleEndian(b[..4]) + 0x1_0000_0000 * LittleEndian(b[4..])
  {
    if |b| == 2 {
      assert b[1..][1..] == [] && b[1..][0] == b[1];
      assert LittleEndian(b[1..]) == b[1];
    } else if |b| == 4 {
      LittleEndianSplit(b, 2);
    } else if |b| == 8 {
      LittleEndianSplit(b, 4);
    }
  }

  lemma {:induction false} LittleEndianSplit(b: seq<byte>, i: nat)
    requires i <= |b|
    ensures LittleEndian(b) == LittleEndian(b[..i]) + Power256(i) * LittleEndian(b[i..])
    decreases i
  {
    if i == 0 {
      assert b[0..] == b;
    } else {
      LittleEndianSplit(b[1..], i - 1);
      assert b[1..][..i - 1] == b[..i][1..] && b[1..][i - 1..] == b[i..];
      Scaled(LittleEndian(b[..i][1..]), Power256(i - 1), LittleEndian(b[i..]));
    }
  }

  lemma Scaled(low: nat, p: nat, high: nat)
    ensures 256 * (low + p * high) == 256 * low + 256 * p * high
  {
  }

  datatype VkFormat = Undefined | Bgra8Unorm | Rgba8Unorm | Nv12 | P010

  const DRM_XRGB8888 := 0x34325258
  const DRM_ARGB8888 := 0x34325241
  const DRM_XBGR8888 := 0x34324258
  const DRM_ABGR8888 := 0x34324241
  const DRM_NV12 := 0x3231564e
  const DRM_P010 := 0x30313050

  function VkFormatFor(fourcc: nat): VkFormat {
    if fourcc == DRM_XRGB8888 || fourcc == DRM_ARGB8888 then Bgra8Unorm
    else if fourcc == DRM_XBGR8888 || fourcc == DRM_ABGR8888 then Rgba8Unorm
    else if fourcc == DRM_NV12 then Nv12
    else if fourcc == DRM_P010 then P010
    else Undefined
  }

  // ---- what the codes and the formats mean ----

  datatype Channel = R | G | B | A | X

  // drm_fourcc.h's fourcc_code: four characters, the first in the lowest byte.
  function FourCC(a: nat, b: nat, c: nat, d: nat): nat {
    a + 0x100 * b + 0x1_0000 * c + 0x100_0000 * d
  }

  // drm_fourcc.h's packed 8:8:8:8 formats, most significant channel first: XR24, AR24, XB24, AB24.
  function PackedChannels(fourcc: nat): Option<seq<Channel>> {
    if fourcc == FourCC(0x58, 0x52, 0x32, 0x34) then Some([X, R, G, B])
    else if fourcc == FourCC(0x41, 0x52, 0x32, 0x34) then Some([A, R, G, B])
    else if fourcc == FourCC(0x58, 0x42, 0x32, 0x34) then Some([X, B, G, R])
    else if fourcc == FourCC(0x41, 0x42, 0x32, 0x34) then Some([A, B, G, R])
    else None
  }

  // Vulkan names a byte format's channels in memory order.
  function MemoryChannels(f: VkFormat): Option<seq<Channel>> {
    match f
    case Bgra8Unorm => Some([B, G, R, A])
    case Rgba8Unorm => Some([R, G, B, A])
    case _ => None
  }

  /** A packed colour code maps to the format with the same channels in the same bytes: little-endian
      packing puts the least significant channel first, and an ignored channel is read as alpha. */
  lemma ColourFormatsMatch(fourcc: nat)
    ensures var vk := MemoryChannels(VkFormatFor(fourcc));
            match PackedChannels(fourcc)
            case None => vk.None?
            case Some(c) => vk == Some([c[3], c[2], c[1], A])
  {
  }

  /** The other codes that are mapped are NV12 and P010, each to its own format. */
  lemma MappedFormats(fourcc: nat)
    ensures VkFormatFor(fourcc) == Nv12 <==> fourcc == FourCC(0x4E, 0x56, 0x31, 0x32)
    ensures VkFormatFor(fourcc) == P010 <==> fourcc == FourCC(0x50, 0x30, 0x31, 0x30)
    ensures VkFormatFor(fourcc) != Undefined <==>
              PackedChannels(fourcc).Some? || VkFormatFor(fourcc) == Nv12 || VkFormatFor(fourcc) == P010
  {
  }

  datatype FormatOffer = FormatOffer(fourcc: nat, vkFormat: VkFormat, modifier: nat)

  // ---- the wire format: linux-dmabuf-v1, zwp_linux_dmabuf_feedback_v1.format_table ----

  const ENTRY_SIZE := 16

  // A 32-bit format, 32 bits of padding, a 64-bit modifier.
  datatype Entry = Entry(fourcc: nat, padding: nat, modifier: nat)

  predicate EntryFits(e: Entry) {
    e.fourcc < Power256(4) && e.padding < Power256(4) && e.modifier < Power256(8)
  }

  function EncodeEntry(e: Entry): (b: seq<byte>)
    ensures |b| == ENTRY_SIZE
  {
    Bytes(e.fourcc, 4) + Bytes(e.padding, 4) + Bytes(e.modifier, 8)
  }

  function EncodeTable(es: seq<Entry>): (b: seq<byte>)
    ensures |b| == ENTRY_SIZE * |es|
  {
    if es == [] then [] else EncodeEntry(es[0]) + EncodeTable(es[1..])
  }

  // What one index of a tranche selects; None when the entry does not lie wholly in the table.
  function DecodeEntry(table: seq<byte>, index: nat): Option<(nat, nat)> {
    var offset := index * ENTRY_SIZE;
    if offset + ENTRY_SIZE > |table| then None
    else Some((LittleEndian(table[offset..offset + 4]), LittleEndian(table[offset + 8..offset + 16])))
  }

  lemma DecodeFirst(e: Entry, rest: seq<byte>)
    requires EntryFits(e)
    ensures DecodeEntry(EncodeEntry(e) + rest, 0) == Some((e.fourcc, e.modifier))
  {
    hide LittleEndian, Bytes, Power256;
    var table := EncodeEntry(e) + rest;
    assert table[0..4] == Bytes(e.fourcc, 4) && table[8..16] == Bytes(e.modifier, 8);
    BytesRoundTrip(e.fourcc, 4);
    BytesRoundTrip(e.modifier, 8);
  }

  lemma DecodeLater(entry: seq<byte>, rest: seq<byte>, index: nat)
    requires |entry| == ENTRY_SIZE && index > 0
    ensures DecodeEntry(entry + rest, index) == DecodeEntry(rest, index - 1)
  {
    hide LittleEndian;
    var table, offset := entry + rest, index * ENTRY_SIZE;
    if offset + ENTRY_SIZE <= |table| {
      assert table[offset..offset + 4] == rest[offset - 16..offset - 12];
      assert table[offset + 8..offset + 16] == rest[offset - 8..offset];
    }
  }

  /** Decoding inverts encoding for every entry, whatever the padding and whatever incomplete entry
      follows the table, and refuses every index beyond it. */
  lemma {:induction false} DecodeInvertsEncode(es: seq<Entry>, tail: seq<byte>, index: nat)
    requires (forall i | 0 <= i < |es| :: EntryFits(es[i])) && |tail| < ENTRY_SIZE
    ensures DecodeEntry(EncodeTable(es) + tail, index)
            == if index < |es| then Some((es[index].fourcc, es[index].modifier)) else None
    decreases |es|
  {
    hide LittleEndian, Bytes, EntryFits, EncodeEntry;
    if es != [] {
      var rest := EncodeTable(es[1..]) + tail;
      assert EncodeTable(es) + tail == EncodeEntry(es[0]) + rest;
      if index == 0 {
        DecodeFirst(es[0], rest);
      } else {
        DecodeLater(EncodeEntry(es[0]), rest, index);
        DecodeInvertsEncode(es[1..], tail, index - 1);
      }
    }
  }

  // A wl_array of 16-bit indices; an odd last byte is ignored.
  function Indices(a: seq<byte>): (r: seq<nat>)
    ensures |r| == |a| / 2
  {
    if |a| < 2 then [] else [LittleEndian(a[..2])] + Indices(a[2..])
  }

  // What a compositor sends: two bytes an index.
  function EncodeIndices(indices: seq<nat>): (a: seq<byte>)
    ensures |a| == 2 * |indices|
  {
    if indices == [] then [] else Bytes(indices[0], 2) + EncodeIndices(indices[1..])
  }

  lemma {:induction false} IndicesRoundTrip(indices: seq<nat>, odd: seq<byte>)
    requires (forall i | 0 <= i < |indices| :: indices[i] < 0x1_0000) && |odd| < 2
    ensures Indices(EncodeIndices(indices) + odd) == indices
    decreases |indices|
  {
    hide LittleEndian, Bytes;
    if indices != [] {
      var a := EncodeIndices(indices) + odd;
      assert a[..2] == Bytes(indices[0], 2) && a[2..] == EncodeIndices(indices[1..]) + odd;
      BytesRoundTrip(indices[0], 2);
      IndicesRoundTrip(indices[1..], odd);
    }
  }

  function Candidates(table: seq<byte>, indices: seq<nat>): seq<(nat, nat)> {
    if indices == [] then []
    else
      var rest := Candidates(table, indices[1..]);
      match DecodeEntry(table, indices[0])
      case None => rest
      case Some(c) => [c] + rest
  }

  function Offers(candidates: seq<(nat, nat)>): (r: seq<FormatOffer>)
    ensures |r| == |candidates|
  {
    if candidates == [] then []
    else [FormatOffer(candidates[0].0, VkFormatFor(candidates[0].0), candidates[0].1)] + Offers(candidates[1..])
  }

  // ---- the listeners as one machine ----

  datatype Feedback = Feedback(table: seq<byte>, candidates: seq<(nat, nat)>, offers: seq<FormatOffer>)

  datatype FeedbackEvent =
    | FormatTableEvent(table: seq<byte>)
    | TrancheFormatsEvent(indices: seq<byte>)
    | TrancheDoneEvent

  function Receive(f: Feedback, e: FeedbackEvent): Feedback {
    match e
    case FormatTableEvent(t) => f.(table := t)
    case TrancheFormatsEvent(a) => f.(candidates := f.candidates + Candidates(f.table, Indices(a)))
    case TrancheDoneEvent => f.(offers := f.offers + Offers(f.candidates), candidates := [])
  }

  function ReceiveAll(f: Feedback, es: seq<FeedbackEvent>): Feedback
    decreases |es|
  {
    if es == [] then f else ReceiveAll(Receive(f, es[0]), es[1..])
  }

  // A tranche: any number of tranche_formats events, then tranche_done.
  function TrancheEvents(arrays: seq<seq<byte>>): seq<FeedbackEvent> {
    if arrays == [] then [TrancheDoneEvent] else [TrancheFormatsEvent(arrays[0])] + TrancheEvents(arrays[1..])
  }

  function AllEvents(tranches: seq<seq<seq<byte>>>): seq<FeedbackEvent> {
    if tranches == [] then [] else TrancheEvents(tranches[0]) + AllEvents(tranches[1..])
  }

  function TrancheIndices(arrays: seq<seq<byte>>): seq<nat> {
    if arrays == [] then [] else Indices(arrays[0]) + TrancheIndices(arrays[1..])
  }

  function AllIndices(tranches: seq<seq<seq<byte>>>): seq<nat> {
    if tranches == [] then [] else TrancheIndices(tranches[0]) + AllIndices(tranches[1..])
  }

  lemma {:induction false} CandidatesConcat(table: seq<byte>, a: seq<nat>, b: seq<nat>)
    ensures Candidates(table, a + b) == Candidates(table, a) + Candidates(table, b)
    decreases |a|
  {
    if a == [] {
      assert a + b == b;
    } else {
      assert (a + b)[1..] == a[1..] + b;
      CandidatesConcat(table, a[1..], b);
    }
  }

  lemma {:induction false} OffersConcat(a: seq<(nat, nat)>, b: seq<(nat, nat)>)
    ensures Offers(a + b) == Offers(a) + Offers(b)
    decreases |a|
  {
    if a == [] {
      assert a + b == b;
    } else {
      assert (a + b)[1..] == a[1..] + b;
      OffersConcat(a[1..], b);
    }
  }

  lemma {:induction false} ReceiveConcat(f: Feedback, a: seq<FeedbackEvent>, b: seq<FeedbackEvent>)
    ensures ReceiveAll(f, a + b) == ReceiveAll(ReceiveAll(f, a), b)
    decreases |a|
  {
    if a == [] {
      assert a + b == b;
    } else {
      assert (a + b)[1..] == a[1..] + b;
      ReceiveConcat(Receive(f, a[0]), a[1..], b);
    }
  }

  lemma {:induction false} OneTranche(f: Feedback, arrays: seq<seq<byte>>)
    ensures ReceiveAll(f, TrancheEvents(arrays))
            == Feedback(f.table, [], f.offers + Offers(f.candidates + Candidates(f.table, TrancheIndices(arrays))))
    decreases |arrays|
  {
    var es := TrancheEvents(arrays);
    if arrays == [] {
      assert es[1..] == [];
      assert ReceiveAll(f, es) == ReceiveAll(Receive(f, TrancheDoneEvent), []);
      assert f.candidates + [] == f.candidates;
    } else {
      var f1 := Receive(f, TrancheFormatsEvent(arrays[0]));
      assert es[1..] == TrancheEvents(arrays[1..]);
      OneTranche(f1, arrays[1..]);
      CandidatesConcat(f.table, Indices(arrays[0]), TrancheIndices(arrays[1..]));
      var here, there := Candidates(f.table, Indices(arrays[0])), Candidates(f.table, TrancheIndices(arrays[1..]));
      assert f.candidates + here + there == f.candidates + (here + there);
    }
  }

  lemma NothingSelected(f: Feedback)
    ensures f.offers + Offers(Candidates(f.table, [])) == f.offers
  {
  }

  /** However the indices are spread over tranches and events, the offers are the in-order
      concatenation of the in-range entries they select. */
  lemma {:induction false} OffersAreAllTranches(f: Feedback, tranches: seq<seq<seq<byte>>>)
    requires f.candidates == []
    ensures ReceiveAll(f, AllEvents(tranches))
            == f.(offers := f.offers + Offers(Candidates(f.table, AllIndices(tranches))))
    decreases |tranches|
  {
    hide TrancheEvents, TrancheIndices, Candidates, Offers, Receive;
    if tranches == [] {
      NothingSelected(f);
    } else {
      var here, rest := TrancheIndices(tranches[0]), AllIndices(tranches[1..]);
      ReceiveConcat(f, TrancheEvents(tranches[0]), AllEvents(tranches[1..]));
      OneTranche(f, tranches[0]);
      var f1 := ReceiveAll(f, TrancheEvents(tranches[0]));
      assert [] + Candidates(f.table, here) == Candidates(f.table, here);
      OffersAreAllTranches(f1, tranches[1..]);
      CandidatesConcat(f.table, here, rest);
      OffersConcat(Candidates(f.table, here), Candidates(f.table, rest));
      assert f.offers + Offers(Candidates(f.table, here)) + Offers(Candidates(f.table, rest))
          == f.offers + (Offers(Candidates(f.table, here)) + Offers(Candidates(f.table, rest)));
    }
  }

  // The offers a compositor means when it sends these indices into its own list of entries.
  function Meant(es: seq<Entry>, indices: seq<nat>): seq<FormatOffer> {
    if indices == [] then []
    else if indices[0] >= |es| then Meant(es, indices[1..])
    else [FormatOffer(es[indices[0]].fourcc, VkFormatFor(es[indices[0]].fourcc), es[indices[0]].modifier)]
         + Meant(es, indices[1..])
  }

  lemma {:induction false} SelectedAreMeant(es: seq<Entry>, tail: seq<byte>, indices: seq<nat>)
    requires (forall i | 0 <= i < |es| :: EntryFits(es[i])) && |tail| < ENTRY_SIZE
    ensures Offers(Candidates(EncodeTable(es) + tail, indices)) == Meant(es, indices)
    decreases |indices|
  {
    if indices != [] {
      DecodeInvertsEncode(es, tail, indices[0]);
      SelectedAreMeant(es, tail, indices[1..]);
      var table := EncodeTable(es) + tail;
      if indices[0] < |es| {
        var c := (es[indices[0]].fourcc, es[indices[0]].modifier);
        assert Candidates(table, indices) == [c] + Candidates(table, indices[1..]);
        assert ([c] + Candidates(table, indices[1..]))[1..] == Candidates(table, indices[1..]);
      }
    }
  }

  /** End to end: a compositor's table and tranches arrive as exactly the offers it meant. */
  lemma FeedbackRoundTrip(es: seq<Entry>, tail: seq<byte>, tranches: seq<seq<seq<byte>>>)
    requires (forall i | 0 <= i < |es| :: EntryFits(es[i])) && |tail| < ENTRY_SIZE
    ensures ReceiveAll(Feedback([], [], []), [FormatTableEvent(EncodeTable(es) + tail)] + AllEvents(tranches)).offers
            == Meant(es, AllIndices(tranches))
  {
    var table := EncodeTable(es) + tail;
    var events := [FormatTableEvent(table)] + AllEvents(tranches);
    assert events[1..] == AllEvents(tranches);
    OffersAreAllTranches(Feedback(table, [], []), tranches);
    SelectedAreMeant(es, tail, AllIndices(tranches));
    assert [] + Offers(Candidates(table, AllIndices(tranches))) == Offers(Candidates(table, AllIndices(tranches)));
  }

  // Tranches of index lists, and the arrays that carry them.
  function Flattened(lists: seq<seq<nat>>): seq<nat> {
    if lists == [] then [] else lists[0] + Flattened(lists[1..])
  }

  function AllFlattened(tranches: seq<seq<seq<nat>>>): seq<nat> {
    if tranches == [] then [] else Flattened(tranches[0]) + AllFlattened(tranches[1..])
  }

  function EncodeLists(lists: seq<seq<nat>>): seq<seq<byte>> {
    if lists == [] then [] else [EncodeIndices(lists[0])] + EncodeLists(lists[1..])
  }

  function EncodeTranches(tranches: seq<seq<seq<nat>>>): seq<seq<seq<byte>>> {
    if tranches == [] then [] else [EncodeLists(tranches[0])] + EncodeTranches(tranches[1..])
  }

  ghost predicate ListsFit(lists: seq<seq<nat>>) {
    forall l, i | 0 <= l < |lists| && 0 <= i < |lists[l]| :: lists[l][i] < 0x1_0000
  }

  lemma {:induction false} ListsRoundTrip(lists: seq<seq<nat>>)
    requires ListsFit(lists)
    ensures TrancheIndices(EncodeLists(lists)) == Flattened(lists)
    decreases |lists|
  {
    hide Indices, EncodeIndices;
    if lists != [] {
      var encoded := EncodeLists(lists);
      IndicesRoundTrip(lists[0], []);
      assert EncodeIndices(lists[0]) + [] == EncodeIndices(lists[0]);
      ListsRoundTrip(lists[1..]);
      assert encoded[0] == EncodeIndices(lists[0]) && encoded[1..] == EncodeLists(lists[1..]);
    }
  }

  lemma {:induction false} TranchesRoundTrip(tranches: seq<seq<seq<nat>>>)
    requires forall t | 0 <= t < |tranches| :: ListsFit(tranches[t])
    ensures AllIndices(EncodeTranches(tranches)) == AllFlattened(tranches)
    decreases |tranches|
  {
    hide TrancheIndices, EncodeLists, Flattened, ListsFit;
    if tranches != [] {
      var encoded := EncodeTranches(tranches);
      ListsRoundTrip(tranches[0]);
      TranchesRoundTrip(tranches[1..]);
      assert encoded[0] == EncodeLists(tranches[0]) && encoded[1..] == EncodeTranches(tranches[1..]);
    }
  }

  /** ... and with the tranches' index lists written out as the compositor encodes them. */
  lemma CompositorRoundTrip(es: seq<Entry>, tail: seq<byte>, tranches: seq<seq<seq<nat>>>)
    requires (forall i | 0 <= i < |es| :: EntryFits(es[i])) && |tail| < ENTRY_SIZE
    requires forall t | 0 <= t < |tranches| :: ListsFit(tranches[t])
    ensures ReceiveAll(Feedback([], [], []),
                       [FormatTableEvent(EncodeTable(es) + tail)] + AllEvents(EncodeTranches(tranches))).offers
            == Meant(es, AllFlattened(tranches))
  {
    FeedbackRoundTrip(es, tail, EncodeTranches(tranches));
    TranchesRoundTrip(tranches);
  }
}
