/** The video example's upload: three planes packed into one staging buffer, copied row by row,
    and read back through the copy regions. */
module Staging {
  import opened FormatTable

  const UINT32_RANGE := 0x1_0000_0000
  const INT32_LIMIT := 0x8000_0000
  const PLANE_ALIGN := 256

  // ~(kPlaneAlign - 1) as a 64-bit mask.
  const ALIGN_MASK: nat := 0xFFFF_FFFF_FFFF_FF00

  // ---- the arithmetic of the offsets ----

  function BitAnd(a: nat, b: nat): nat {
    if a == 0 || b == 0 then 0 else (a % 2) * (b % 2) + 2 * BitAnd(a / 2, b / 2)
  }

  function Ones(n: nat): nat {
    if n == 0 then 0 else 1 + 2 * Ones(n - 1)
  }

  lemma {:induction false} AndOnes(a: nat, n: nat)
    requires a <= Ones(n)
    ensures BitAnd(a, Ones(n)) == a
    decreases n
  {
    if n > 0 && a > 0 {
      assert Ones(n) / 2 == Ones(n - 1) && Ones(n) % 2 == 1;
      AndOnes(a / 2, n - 1);
    }
  }

  lemma AndDouble(a: nat, b: nat)
    ensures BitAnd(a, 2 * b) == 2 * BitAnd(a / 2, b)
  {
    if a > 0 && b > 0 {
      assert 2 * b / 2 == b && 2 * b % 2 == 0;
    }
  }

  lemma OnesByte(n: nat)
    ensures Ones(n + 8) == 256 * Ones(n) + 255
  {
    assert Ones(n + 2) == 4 * Ones(n) + 3;
    assert Ones(n + 4) == 4 * Ones(n + 2) + 3;
    assert Ones(n + 6) == 4 * Ones(n + 4) + 3;
  }

  // The mask is 56 ones above 8 zeros; the zeros clear the low byte one bit at a time.
  lemma AndAlignMask(a: nat)
    requires a < 0x1_0000_0000_0000_0000
    ensures BitAnd(a, ALIGN_MASK) == a / 256 * 256
  {
    hide BitAnd, Ones;
    var m: nat := 0xFF_FFFF_FFFF_FFFF;
    AndDouble(a, 128 * m);
    AndDouble(a / 2, 64 * m);
    AndDouble(a / 4, 32 * m);
    AndDouble(a / 8, 16 * m);
    AndDouble(a / 16, 8 * m);
    AndDouble(a / 32, 4 * m);
    AndDouble(a / 64, 2 * m);
    AndDouble(a / 128, m);
    FiftySixOnes();
    AndOnes(a / 256, 56);
  }

  lemma FiftySixOnes()
    ensures Ones(56) == 0xFF_FFFF_FFFF_FFFF
  {
    hide Ones;
    NoOnes();
    OnesByte(0);
    OnesByte(8);
    OnesByte(16);
    OnesByte(24);
    OnesByte(32);
    OnesByte(40);
    OnesByte(48);
  }

  lemma NoOnes()
    ensures Ones(0) == 0
  {
  }

  // (x + kPlaneAlign - 1) & ~(kPlaneAlign - 1)
  function AlignUp(x: nat): nat {
    BitAnd(x + PLANE_ALIGN - 1, ALIGN_MASK)
  }

  /** Masking rounds up to the next multiple of 256. */
  lemma AlignUpRounds(x: nat)
    requires x < 0x1_0000_0000_0000_0000 - PLANE_ALIGN
    ensures AlignUp(x) % PLANE_ALIGN == 0 && x <= AlignUp(x) < x + PLANE_ALIGN
  {
    hide BitAnd;
    AndAlignMask(x + PLANE_ALIGN - 1);
  }

  // ---- the plane layout ----

  // ls * rows in the source's arithmetic: a signed 32-bit stride times an unsigned 32-bit count.
  function PlaneBytes(stride: int, rows: nat): (r: nat)
    ensures r < UINT32_RANGE
  {
    stride % UINT32_RANGE * rows % UINT32_RANGE
  }

  // Plane p has rows[p] rows of width[p] bytes, stride[p] apart.
  datatype Planes = Planes(stride: seq<int>, width: seq<nat>, rows: seq<nat>)

  // 8-bit 4:2:0 with even dimensions.
  function Yuv420(stride: seq<int>, w: nat, h: nat): Planes {
    Planes(stride, [w, w / 2, w / 2], [h, h / 2, h / 2])
  }

  datatype Layout = Layout(offset: seq<nat>, bytes: nat)

  function Pack(stride: seq<int>, h: nat): Layout
    requires |stride| == 3
  {
    var off1 := AlignUp(PlaneBytes(stride[0], h));
    var off2 := AlignUp(off1 + PlaneBytes(stride[1], h / 2));
    Layout([0, off1, off2], off2 + PlaneBytes(stride[2], h / 2))
  }

  // Strides the decoder may use for these widths.
  ghost predicate Decodable(p: Planes) {
    && |p.stride| == |p.width| == |p.rows| == 3
    && forall i | 0 <= i < 3 :: p.width[i] <= p.stride[i] < INT32_LIMIT && p.rows[i] < INT32_LIMIT
  }

  ghost predicate NoOverflow(p: Planes)
    requires Decodable(p)
  {
    forall i | 0 <= i < 3 :: p.stride[i] * p.rows[i] < UINT32_RANGE
  }

  // One past the last byte of plane i that is copied or read back.
  ghost function PlaneEnd(p: Planes, l: Layout, i: nat): int
    requires Decodable(p) && |l.offset| == 3 && i < 3
  {
    if p.rows[i] == 0 || p.width[i] == 0 then l.offset[i]
    else l.offset[i] + (p.rows[i] - 1) * p.stride[i] + p.width[i]
  }

  // Every plane starts aligned and ends before the next one, the last one inside the buffer.
  ghost predicate Packed(p: Planes, l: Layout)
    requires Decodable(p)
  {
    && |l.offset| == 3
    && (forall i | 0 <= i < 3 :: l.offset[i] % PLANE_ALIGN == 0)
    && PlaneEnd(p, l, 0) <= l.offset[1] <= l.offset[2] <= l.bytes
    && PlaneEnd(p, l, 1) <= l.offset[2]
    && PlaneEnd(p, l, 2) <= l.bytes
  }

  // A plane with pixels needs its full product, less one row's padding.
  lemma PlaneNeeds(stride: nat, width: nat, rows: nat)
    requires width <= stride < INT32_LIMIT && rows < INT32_LIMIT
    ensures PlaneBytes(stride, rows) <= stride * rows
    ensures stride * rows < UINT32_RANGE ==> PlaneBytes(stride, rows) == stride * rows
    ensures stride * rows >= UINT32_RANGE ==> PlaneBytes(stride, rows) + UINT32_RANGE <= stride * rows
    ensures rows > 0 ==> (rows - 1) * stride == stride * rows - stride
  {
    assert stride % UINT32_RANGE == stride;
    var product := stride * rows;
    assert product >= 0;
    assert product == product / UINT32_RANGE * UINT32_RANGE + product % UINT32_RANGE;
  }

  /** The planes are 256-aligned, disjoint and inside the staging buffer if no plane's size
      overflows 32 bits - and, for every frame that has pixels, only if. */
  lemma PackedIffNoOverflow(stride: seq<int>, w: nat, h: nat)
    requires |stride| == 3 && Decodable(Yuv420(stride, w, h))
    ensures NoOverflow(Yuv420(stride, w, h)) ==> Packed(Yuv420(stride, w, h), Pack(stride, h))
    ensures w >= 2 && h >= 2 && Packed(Yuv420(stride, w, h), Pack(stride, h)) ==> NoOverflow(Yuv420(stride, w, h))
  {
    hide AlignUp, PlaneBytes;
    var p, l := Yuv420(stride, w, h), Pack(stride, h);
    var b0, b1, b2 := PlaneBytes(stride[0], h), PlaneBytes(stride[1], h / 2), PlaneBytes(stride[2], h / 2);
    AlignUpRounds(b0);
    AlignUpRounds(l.offset[1] + b1);
    PlaneNeeds(p.stride[0], p.width[0], p.rows[0]);
    PlaneNeeds(p.stride[1], p.width[1], p.rows[1]);
    PlaneNeeds(p.stride[2], p.width[2], p.rows[2]);
  }

  // ---- copying and reading back ----

  // Byte x of row y of a plane at `offset` with rows `stride` apart.
  function Addr(offset: nat, stride: nat, x: nat, y: nat): nat {
    offset + y * stride + x
  }

  lemma RowsApart(stride: nat, width: nat, y: nat, z: nat)
    requires width <= stride && y < z
    ensures y * stride + width <= z * stride
  {
    assert (y + 1) * stride <= z * stride;
  }

  // The first n rows of the source plane are in the buffer.
  ghost predicate RowsCopied(buffer: seq<byte>, offset: nat, stride: nat, data: seq<byte>, pitch: nat,
                             width: nat, n: nat)
  {
    forall x: nat, y: nat | x < width && y < n ::
      && Addr(offset, stride, x, y) < |buffer| && Addr(0, pitch, x, y) < |data|
      && buffer[Addr(offset, stride, x, y)] == data[Addr(0, pitch, x, y)]
  }

  // The source holds n rows.
  ghost predicate HasRows(data: seq<byte>, pitch: nat, width: nat, n: nat) {
    forall y: nat | y < n :: Addr(0, pitch, width, y) <= |data|
  }

  method Memcpy(dst: array<byte>, to: nat, src: seq<byte>, from: nat, count: nat)
    requires to + count <= dst.Length && from + count <= |src|
    modifies dst
    ensures forall i | 0 <= i < dst.Length ::
              dst[i] == if to <= i < to + count then src[from + i - to] else old(dst[i])
  {
    var i := 0;
    while i < count
      invariant i <= count
      invariant forall k | 0 <= k < dst.Length ::
                  dst[k] == if to <= k < to + i then src[from + k - to] else old(dst[k])
    {
      dst[to + i] := src[from + i];
      i := i + 1;
    }
  }

  // One row: earlier rows of this plane stay, and so does everything outside the plane.
  method CopyRow(dst: array<byte>, offset: nat, stride: nat, data: seq<byte>, pitch: nat, width: nat, y: nat)
    requires width <= stride && Addr(offset, stride, width, y) <= dst.Length
    requires Addr(0, pitch, width, y) <= |data|
    requires RowsCopied(dst[..], offset, stride, data, pitch, width, y)
    modifies dst
    ensures RowsCopied(dst[..], offset, stride, data, pitch, width, y + 1)
    ensures forall i | 0 <= i < dst.Length && (i < offset || i >= Addr(offset, stride, width, y)) ::
              dst[i] == old(dst[i])
  {
    var to := offset + y * stride;
    Memcpy(dst, to, data, y * pitch, width);
    forall x: nat, z: nat | x < width && z < y + 1
      ensures Addr(offset, stride, x, z) < |dst[..]| && Addr(0, pitch, x, z) < |data|
      ensures dst[..][Addr(offset, stride, x, z)] == data[Addr(0, pitch, x, z)]
    {
      if z < y {
        assert old(dst[..])[Addr(offset, stride, x, z)] == data[Addr(0, pitch, x, z)];
        RowsApart(stride, width, z, y);
      }
    }
  }

  // Bytes that another plane's rows occupy are not touched.
  lemma OtherPlaneStays(before: seq<byte>, after: seq<byte>, lo: nat, hi: nat,
                        offset: nat, stride: nat, data: seq<byte>, pitch: nat, width: nat, n: nat)
    requires |after| == |before| && width <= stride
    requires forall i | 0 <= i < |before| && (i < lo || i >= hi) :: after[i] == before[i]
    requires RowsCopied(before, offset, stride, data, pitch, width, n)
    requires offset >= hi || n == 0 || width == 0 || Addr(offset, stride, width, n - 1) <= lo
    ensures RowsCopied(after, offset, stride, data, pitch, width, n)
  {
    forall x: nat, y: nat | x < width && y < n
      ensures Addr(offset, stride, x, y) < |after| && after[Addr(offset, stride, x, y)] == data[Addr(0, pitch, x, y)]
    {
      assert before[Addr(offset, stride, x, y)] == data[Addr(0, pitch, x, y)];
      if y < n - 1 {
        RowsApart(stride, width, y, n - 1);
      }
    }
  }

  // A decoded frame: its planes and their own pitches, which need not be the first frame's.
  datatype Picture = Picture(data: seq<seq<byte>>, pitch: seq<nat>)

  ghost predicate Covers(f: Picture, p: Planes)
    requires Decodable(p)
  {
    && |f.data| == |f.pitch| == 3
    && forall i | 0 <= i < 3 :: HasRows(f.data[i], f.pitch[i], p.width[i], p.rows[i])
  }

  ghost predicate PlaneCopied(buffer: seq<byte>, f: Picture, p: Planes, l: Layout, i: nat, n: nat)
    requires Decodable(p) && |f.data| == |f.pitch| == |l.offset| == 3 && i < 3
  {
    RowsCopied(buffer, l.offset[i], p.stride[i], f.data[i], f.pitch[i], p.width[i], n)
  }

  // Row y of plane i ends inside the plane.
  lemma RowInside(p: Planes, l: Layout, i: nat, y: nat)
    requires Decodable(p) && Packed(p, l) && i < 3 && y < p.rows[i] && p.width[i] > 0
    ensures Addr(l.offset[i], p.stride[i], p.width[i], y) <= PlaneEnd(p, l, i) <= l.bytes
  {
    if y < p.rows[i] - 1 {
      RowsApart(p.stride[i], p.width[i], y, p.rows[i] - 1);
    }
  }

  // One row of plane i, leaving what the other planes already hold.
  method CopyPlaneRow(dst: array<byte>, f: Picture, p: Planes, l: Layout, i: nat, y: nat,
                      ghost other: nat, ghost n: nat, ghost third: nat, ghost m: nat)
    requires Decodable(p) && Packed(p, l) && Covers(f, p) && l.bytes <= dst.Length
    requires {i, other, third} == {0, 1, 2} && y < p.rows[i] && n <= p.rows[other] && m <= p.rows[third]
    requires PlaneCopied(dst[..], f, p, l, i, y)
    requires PlaneCopied(dst[..], f, p, l, other, n) && PlaneCopied(dst[..], f, p, l, third, m)
    modifies dst
    ensures PlaneCopied(dst[..], f, p, l, i, y + 1)
    ensures PlaneCopied(dst[..], f, p, l, other, n) && PlaneCopied(dst[..], f, p, l, third, m)
  {
    hide RowsCopied;
    ghost var before := dst[..];
    if p.width[i] == 0 {
      NothingToCopy(dst[..], f, p, l, i, y);
      return;
    }
    RowInside(p, l, i, y);
    assert Addr(0, f.pitch[i], p.width[i], y) <= |f.data[i]|;
    CopyRow(dst, l.offset[i], p.stride[i], f.data[i], f.pitch[i], p.width[i], y);
    KeepPlane(before, dst[..], f, p, l, i, y, other, n);
    KeepPlane(before, dst[..], f, p, l, i, y, third, m);
  }

  lemma NothingToCopy(buffer: seq<byte>, f: Picture, p: Planes, l: Layout, i: nat, y: nat)
    requires Decodable(p) && |f.data| == |f.pitch| == |l.offset| == 3 && i < 3 && p.width[i] == 0
    ensures PlaneCopied(buffer, f, p, l, i, y + 1)
  {
  }

  lemma KeepPlane(before: seq<byte>, after: seq<byte>, f: Picture, p: Planes, l: Layout,
                  i: nat, y: nat, other: nat, n: nat)
    requires Decodable(p) && Packed(p, l) && Covers(f, p)
    requires i < 3 && other < 3 && i != other && y < p.rows[i] && p.width[i] > 0 && n <= p.rows[other]
    requires |after| == |before|
    requires forall k | 0 <= k < |before| && (k < l.offset[i] || k >= Addr(l.offset[i], p.stride[i], p.width[i], y)) ::
               after[k] == before[k]
    requires PlaneCopied(before, f, p, l, other, n)
    ensures PlaneCopied(after, f, p, l, other, n)
  {
    hide RowsCopied;
    RowInside(p, l, i, y);
    if n > 0 && p.width[other] > 0 {
      RowInside(p, l, other, n - 1);
    }
    OtherPlaneStays(before, after, l.offset[i], Addr(l.offset[i], p.stride[i], p.width[i], y),
                    l.offset[other], p.stride[other], f.data[other], f.pitch[other], p.width[other], n);
  }

  /** The two copy loops: the luma rows, then both chroma planes row by row. */
  method CopyPicture(dst: array<byte>, f: Picture, p: Planes, l: Layout)
    requires Decodable(p) && Packed(p, l) && Covers(f, p) && l.bytes <= dst.Length && p.rows[1] == p.rows[2]
    modifies dst
    ensures forall i | 0 <= i < 3 :: PlaneCopied(dst[..], f, p, l, i, p.rows[i])
  {
    hide RowsCopied;
    NoRowsYet(dst[..], f, p, l);
    var y := 0;
    while y < p.rows[0]
      invariant y <= p.rows[0]
      invariant PlaneCopied(dst[..], f, p, l, 0, y)
      invariant PlaneCopied(dst[..], f, p, l, 1, 0) && PlaneCopied(dst[..], f, p, l, 2, 0)
    {
      CopyPlaneRow(dst, f, p, l, 0, y, 1, 0, 2, 0);
      y := y + 1;
    }
    y := 0;
    while y < p.rows[1]
      invariant y <= p.rows[1]
      invariant PlaneCopied(dst[..], f, p, l, 0, p.rows[0])
      invariant PlaneCopied(dst[..], f, p, l, 1, y) && PlaneCopied(dst[..], f, p, l, 2, y)
    {
      CopyPlaneRow(dst, f, p, l, 1, y, 0, p.rows[0], 2, y);
      CopyPlaneRow(dst, f, p, l, 2, y, 0, p.rows[0], 1, y + 1);
      y := y + 1;
    }
  }

  lemma NoRowsYet(buffer: seq<byte>, f: Picture, p: Planes, l: Layout)
    requires Decodable(p) && |f.data| == |f.pitch| == |l.offset| == 3
    ensures forall i | 0 <= i < 3 :: PlaneCopied(buffer, f, p, l, i, 0)
  {
  }

  // ---- the copy regions ----

  // The fields of VkBufferImageCopy that address the buffer.
  datatype CopyRegion = CopyRegion(bufferOffset: nat, bufferRowLength: nat, bufferImageHeight: nat,
                                   width: nat, height: nat)

  method BuildRegions(p: Planes, l: Layout) returns (regions: seq<CopyRegion>)
    requires Decodable(p) && |l.offset| == 3
    ensures |regions| == 3
    ensures forall i | 0 <= i < 3 ::
              regions[i] == CopyRegion(l.offset[i], p.stride[i], p.rows[i], p.width[i], p.rows[i])
  {
    regions := [];
    var i := 0;
    while i < 3
      invariant i <= 3 && |regions| == i
      invariant forall k | 0 <= k < i ::
                  regions[k] == CopyRegion(l.offset[k], p.stride[k], p.rows[k], p.width[k], p.rows[k])
    {
      regions := regions + [CopyRegion(l.offset[i], p.stride[i] % UINT32_RANGE, p.rows[i], p.width[i], p.rows[i])];
      i := i + 1;
    }
  }

  // Vulkan's buffer address of texel (x, y) of a region with one byte per texel.
  function TexelAddress(r: CopyRegion, x: nat, y: nat): nat {
    r.bufferOffset + (y * r.bufferRowLength + x)
  }

  // Every texel of every region reads the source pixel at the same place.
  ghost predicate ReadsBack(buffer: seq<byte>, regions: seq<CopyRegion>, f: Picture) {
    && |regions| == |f.data| == |f.pitch| == 3
    && forall i: nat, x: nat, y: nat | i < 3 && x < regions[i].width && y < regions[i].height ::
         && TexelAddress(regions[i], x, y) < |buffer| && y * f.pitch[i] + x < |f.data[i]|
         && buffer[TexelAddress(regions[i], x, y)] == f.data[i][y * f.pitch[i] + x]
  }

  lemma RegionsReadBack(buffer: seq<byte>, regions: seq<CopyRegion>, f: Picture, p: Planes, l: Layout)
    requires Decodable(p) && |l.offset| == |regions| == |f.data| == |f.pitch| == 3
    requires forall i | 0 <= i < 3 ::
               regions[i] == CopyRegion(l.offset[i], p.stride[i], p.rows[i], p.width[i], p.rows[i])
    requires forall i | 0 <= i < 3 :: PlaneCopied(buffer, f, p, l, i, p.rows[i])
    ensures ReadsBack(buffer, regions, f)
  {
    forall i: nat, x: nat, y: nat | i < 3 && x < regions[i].width && y < regions[i].height
      ensures TexelAddress(regions[i], x, y) < |buffer| && y * f.pitch[i] + x < |f.data[i]|
      ensures buffer[TexelAddress(regions[i], x, y)] == f.data[i][y * f.pitch[i] + x]
    {
      assert PlaneCopied(buffer, f, p, l, i, p.rows[i]);
      assert TexelAddress(regions[i], x, y) == Addr(l.offset[i], p.stride[i], x, y);
      assert Addr(0, f.pitch[i], x, y) == y * f.pitch[i] + x;
    }
  }

  /** Packing, copying and reading back through the regions is the identity on all three planes. */
  method Upload(dst: array<byte>, f: Picture, stride: seq<int>, w: nat, h: nat) returns (regions: seq<CopyRegion>)
    requires |stride| == 3 && Decodable(Yuv420(stride, w, h)) && NoOverflow(Yuv420(stride, w, h))
    requires Covers(f, Yuv420(stride, w, h)) && Pack(stride, h).bytes <= dst.Length
    modifies dst
    ensures ReadsBack(dst[..], regions, f)
    ensures |regions| == 3 && regions[0].width == w && regions[0].height == h
    ensures forall i | 1 <= i < 3 :: regions[i].width == w / 2 && regions[i].height == h / 2
  {
    hide Pack, Packed, PlaneCopied;
    PackedIffNoOverflow(stride, w, h);
    var p, l := Yuv420(stride, w, h), Pack(stride, h);
    PackedOffsets(p, l);
    CopyPicture(dst, f, p, l);
    regions := BuildRegions(p, l);
    RegionsReadBack(dst[..], regions, f, p, l);
  }

  lemma PackedOffsets(p: Planes, l: Layout)
    requires Decodable(p) && Packed(p, l)
    ensures |l.offset| == 3
  {
  }

  /** Without overflow nothing is wasted: each plane starts at the first multiple of 256 after the
      one before, and the buffer ends with the last plane. */
  lemma PackedTightly(stride: seq<int>, w: nat, h: nat)
    requires |stride| == 3 && Decodable(Yuv420(stride, w, h)) && NoOverflow(Yuv420(stride, w, h))
    ensures var l := Pack(stride, h);
            && l.offset[0] == 0
            && stride[0] * h <= l.offset[1] < stride[0] * h + PLANE_ALIGN
            && l.offset[1] + stride[1] * (h / 2) <= l.offset[2] < l.offset[1] + stride[1] * (h / 2) + PLANE_ALIGN
            && l.bytes == l.offset[2] + stride[2] * (h / 2)
  {
    hide AlignUp, PlaneBytes;
    var p, l := Yuv420(stride, w, h), Pack(stride, h);
    PlaneNeeds(p.stride[0], p.width[0], p.rows[0]);
    PlaneNeeds(p.stride[1], p.width[1], p.rows[1]);
    PlaneNeeds(p.stride[2], p.width[2], p.rows[2]);
    AlignUpRounds(PlaneBytes(stride[0], h));
    AlignUpRounds(l.offset[1] + PlaneBytes(stride[1], h / 2));
  }

  /** The smallest frame meets everything an upload needs. */
  lemma SmallestFrame()
    ensures var p := Yuv420([2, 1, 1], 2, 2);
            && Decodable(p) && NoOverflow(p) && Packed(p, Pack([2, 1, 1], 2))
            && Covers(Picture([[1, 2, 3, 4], [5], [6]], [2, 1, 1]), p)
  {
    PackedIffNoOverflow([2, 1, 1], 2, 2);
  }

  /** A luma plane of 65536 rows, 65536 bytes apart, takes no room: its size wraps to zero, so the
      second plane starts on top of it. */
  lemma WrappedPlane()
    ensures var p, l := Yuv420([65536, 1, 1], 2, 65536), Pack([65536, 1, 1], 65536);
            Decodable(p) && !NoOverflow(p) && l.offset[1] == l.offset[0] && !Packed(p, l)
  {
    hide BitAnd;
    AlignUpRounds(0);
    PackedIffNoOverflow([65536, 1, 1], 2, 65536);
  }
}
