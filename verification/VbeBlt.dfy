/**
 Block transfers in a VBE graphics mode. The driver works on a shadow of the
 frame buffer and pushes every row it changes to the physical one.
 */
module VbeBlt {
  import opened Words
  import opened Bytes
  import opened Rows
  import opened Pixels

  datatype Status = Success | InvalidParameter

  /** The operations that change the screen. */
  datatype Operation = VideoFill | BufferToVideo | VideoToVideo

  datatype Mode = Mode(hres: nat, vres: nat, L: nat, w: nat, layout: Layout)

  /** Three or four bytes a pixel, and scan lines that have room for the pixels. */
  predicate ModeOk(m: Mode)
  {
    3 <= m.w <= 4 && m.hres * m.w <= m.L && m.hres < TWO64 && m.vres < TWO64
  }

  /** The bytes of a pixel in the frame buffer. */
  function PixelBytes(m: Mode, p: Pixel): (b: seq<uint8>)
    requires ModeOk(m)
    ensures |b| == m.w
  {
    Word32Bytes(Encode(m.layout, p))[..m.w]
  }

  /** The pixel at a byte offset of a caller's buffer. */
  function PixelAt(blt: seq<uint8>, off: nat): Pixel
    requires off + 4 <= |blt|
  {
    Pixel(blt[off], blt[off + 1], blt[off + 2])
  }

  /** The frame buffer bytes of k pixels of a caller's buffer. */
  function RowBytes(m: Mode, blt: seq<uint8>, off: nat, k: nat): (b: seq<uint8>)
    requires ModeOk(m) && off + 4 * k <= |blt|
    ensures |b| == k * m.w
  {
    if k == 0 then []
    else
      Distribute(k - 1, 1, m.w);
      RowBytes(m, blt, off, k - 1) + PixelBytes(m, PixelAt(blt, off + 4 * (k - 1)))
  }

  /** The frame buffer bytes of k equal pixels. */
  function FillBytes(m: Mode, p: Pixel, k: nat): (b: seq<uint8>)
    requires ModeOk(m)
    ensures |b| == k * m.w
  {
    if k == 0 then []
    else
      Distribute(k - 1, 1, m.w);
      FillBytes(m, p, k - 1) + PixelBytes(m, p)
  }

  /** The rectangle of the frame buffer for a rectangle of pixels. */
  function RectOf(m: Mode, x: nat, y: nat, width: nat, height: nat): Rect
  {
    Rect(y, x * m.w, height, width * m.w)
  }

  lemma RectWithin(m: Mode, x: nat, y: nat, width: nat, height: nat)
    requires ModeOk(m) && x + width <= m.hres && y + height <= m.vres
    ensures Rows.Within(RectOf(m, x, y, width, height), m.L, m.vres)
  {
    Distribute(x, width, m.w);
    MulMono(x + width, m.hres, m.w);
  }

  /** Copying a stretch up to mid and then the rest is copying it at once. */
  lemma CopyOn(p: seq<uint8>, address: nat, s: seq<uint8>, from: nat, mid: nat, end: nat)
    requires from <= mid <= end <= |s| && address + (end - from) <= |p|
    ensures Splice(Splice(p, address, s[from..mid]), address + (mid - from), s[mid..end]) == Splice(p, address, s[from..end])
  {
    assert s[from..mid] + s[mid..end] == s[from..end];
  }

  lemma CopyNone(p: seq<uint8>, address: nat, s: seq<uint8>, from: nat)
    requires from <= |s| && address <= |p|
    ensures Splice(p, address, s[from..from]) == p
  {
  }

  class VbeScreen {
    const mode: Mode
    const shadow: array<uint8>
    const phys: array<uint8>
    const shadowAddress: nat

    constructor (mode: Mode, shadow: array<uint8>, phys: array<uint8>, shadowAddress: nat)
      requires ModeOk(mode) && shadow != phys && shadow.Length == phys.Length == Row(mode.L, mode.vres)
      ensures Valid() && this.mode == mode && this.shadow == shadow && this.phys == phys
    {
      this.mode, this.shadow, this.phys, this.shadowAddress := mode, shadow, phys, shadowAddress;
    }

    predicate Valid()
    {
      ModeOk(mode) && shadow != phys && shadow.Length == phys.Length == Row(mode.L, mode.vres)
    }

    /** The physical frame buffer shows the shadow. */
    ghost predicate Synced()
      reads shadow, phys
    {
      shadow[..] == phys[..]
    }

    /** A write of count units of unit bytes to the frame buffer. */
    method PciWrite(address: nat, unit: nat, count: nat, from: nat)
      requires shadow != phys && address + unit * count <= phys.Length && from + unit * count <= shadow.Length
      modifies phys
      ensures phys[..] == Splice(old(phys[..]), address, shadow[from..from + unit * count])
    {
      StoreBytes(phys, address, shadow[from..from + unit * count]);
    }

    /** CopyVideoBuffer: bytes up to an aligned address, then words, then the remaining bytes. */
    method CopyVideoBuffer(from: nat, x: nat, y: nat, total: nat)
      requires shadow != phys && Row(mode.L, y) + x * mode.w + total <= phys.Length && from + total <= shadow.Length
      modifies phys
      ensures phys[..] == Splice(old(phys[..]), Row(mode.L, y) + x * mode.w, shadow[from..from + total])
    {
      var address := Row(mode.L, y) + x * mode.w;
      hide Row, Splice;
      ghost var p, s := phys[..], shadow[..];
      if total < 4 {
        PciWrite(address, 1, total, from);
        return;
      }
      var unaligned := (4 - (shadowAddress + from) % 4) % 4;
      CopyNone(p, address, s, from);
      if unaligned != 0 {
        PciWrite(address, 1, unaligned, from);
      }
      assert phys[..] == Splice(p, address, s[from..from + unaligned]);
      var blocks, remaining := (total - unaligned) / 4, (total - unaligned) % 4;
      var start := from + unaligned;
      CopyWords(address, unaligned, blocks, start, p, from);
      ghost var end := start + 4 * blocks;
      CopyOn(p, address, s, from, end, from + total);
      if remaining != 0 {
        PciWrite(address + unaligned + 4 * blocks, 1, remaining, start + 4 * blocks);
      }
    }

    /** The words of CopyVideoBuffer. */
    method CopyWords(address: nat, unaligned: nat, blocks: nat, start: nat, ghost p: seq<uint8>, ghost from: nat)
      requires shadow != phys && address + unaligned + 4 * blocks <= phys.Length && start + 4 * blocks <= shadow.Length
      requires start == from + unaligned && |p| == phys.Length && phys[..] == Splice(p, address, shadow[from..start])
      modifies phys
      ensures phys[..] == Splice(p, address, shadow[from..start + 4 * blocks])
    {
      hide Splice;
      CopyOn(p, address, shadow[..], from, start, start + 4 * blocks);
      if blocks != 0 {
        PciWrite(address + unaligned, 4, blocks, start);
      }
    }

    /** CopyMem within the shadow, which may overlap. */
    method CopyShadow(to: nat, from: nat, n: nat)
      requires to + n <= shadow.Length && from + n <= shadow.Length
      modifies shadow
      ensures shadow[..] == Splice(old(shadow[..]), to, old(shadow[from..from + n]))
    {
      StoreShadow(to, shadow[from..from + n]);
    }

    method StoreShadow(to: nat, b: seq<uint8>)
      requires to + |b| <= shadow.Length
      modifies shadow
      ensures shadow[..] == Splice(old(shadow[..]), to, b)
    {
      StoreBytes(shadow, to, b);
    }

    /** Push a row of the shadow to the same place of the frame buffer. */
    method Push(x: nat, y: nat, total: nat, ghost before: seq<uint8>, ghost b: seq<uint8>)
      requires shadow != phys && |b| == total && Row(mode.L, y) + x * mode.w + total <= |before|
      requires phys[..] == before && shadow[..] == Splice(before, Row(mode.L, y) + x * mode.w, b)
      modifies phys
      ensures Synced()
    {
      hide Row;
      var off := Row(mode.L, y) + x * mode.w;
      CopyVideoBuffer(off, x, y, total);
      assert shadow[off..off + total] == shadow[..][off..off + total] == b;
    }

    /** Copy a row within the shadow and push it. */
    method MoveRow(x: nat, y: nat, from: nat, total: nat)
      requires shadow != phys && Synced() && from + total <= shadow.Length && Row(mode.L, y) + x * mode.w + total <= shadow.Length
      modifies shadow, phys
      ensures Synced()
      ensures shadow[..] == Splice(old(shadow[..]), Row(mode.L, y) + x * mode.w, old(shadow[from..from + total]))
    {
      hide Row, Splice;
      ghost var before, b := shadow[..], shadow[from..from + total];
      CopyShadow(Row(mode.L, y) + x * mode.w, from, total);
      Push(x, y, total, before, b);
    }

    /** EfiBltVideoToVideo: rows are copied in the order in which no source row is overwritten before it is read. */
    method VideoToVideo(sx: nat, sy: nat, dx: nat, dy: nat, width: nat, height: nat, ghost src: Rect, ghost dst: Rect)
      requires Valid() && Synced() && InScreen(mode, sx, sy, width, height) && InScreen(mode, dx, dy, width, height)
      requires src == RectOf(mode, sx, sy, width, height) && dst == RectOf(mode, dx, dy, width, height)
      requires Rows.Within(src, mode.L, mode.vres) && Rows.Within(dst, mode.L, mode.vres)
      modifies shadow, phys
      ensures Synced()
      ensures Replaced(old(shadow[..]), shadow[..], mode.L, mode.vres, dst, RowsOf(old(shadow[..]), mode.L, mode.vres, src), 0, height)
    {
      hide Row, Replaced, Splice;
      ghost var L, v, before := mode.L, mode.vres, shadow[..];
      ghost var rows := RowsOf(before, L, v, src);
      ghost var from, to := if dy <= sy then 0 else height, if dy <= sy then 0 else height;
      ReplacedNothing(before, L, v, dst, rows, from);
      var total := width * mode.w;
      for index := 0 to height
        invariant from == if dy <= sy then 0 else height - index
        invariant to == if dy <= sy then index else height
        invariant Synced() && Replaced(before, shadow[..], L, v, dst, rows, from, to)
      {
        var i := if dy <= sy then index else height - index - 1;
        SourceIntact(before, shadow[..], L, v, src, dst, from, to, i);
        ReplacedMore(before, shadow[..], L, v, dst, rows, from, to, i);
        MoveRow(dx, dy + i, Row(mode.L, sy + i) + sx * mode.w, total);
        from, to := if i == to then from else i, if i == to then to + 1 else to;
      }
    }

    /** Write width equal pixels to the shadow. */
    method FillRow(off: nat, p: Pixel, width: nat)
      requires Valid() && off + width * mode.w <= shadow.Length
      modifies shadow
      ensures shadow[..] == Splice(old(shadow[..]), off, FillBytes(mode, p, width))
    {
      hide Row, Splice, PixelBytes;
      ghost var before := shadow[..];
      SpliceNothing(before, off);
      var at := off;
      for k := 0 to width
        invariant at == off + |FillBytes(mode, p, k)| && shadow[..] == Splice(before, off, FillBytes(mode, p, k))
      {
        MulMono(k + 1, width, mode.w);
        Distribute(k, 1, mode.w);
        SpliceMore(before, off, FillBytes(mode, p, k), PixelBytes(mode, p));
        StoreShadow(at, PixelBytes(mode, p));
        at := at + mode.w;
      }
    }

    /** Write width pixels of a caller's buffer to the shadow. */
    method PutRow(off: nat, blt: seq<uint8>, start: nat, width: nat)
      requires Valid() && off + width * mode.w <= shadow.Length && start + 4 * width <= |blt|
      modifies shadow
      ensures shadow[..] == Splice(old(shadow[..]), off, RowBytes(mode, blt, start, width))
    {
      hide Row, Splice, PixelBytes, PixelAt;
      ghost var before := shadow[..];
      SpliceNothing(before, off);
      var at := off;
      for k := 0 to width
        invariant at == off + |RowBytes(mode, blt, start, k)| && shadow[..] == Splice(before, off, RowBytes(mode, blt, start, k))
      {
        var b := PixelBytes(mode, PixelAt(blt, start + 4 * k));
        MulMono(k + 1, width, mode.w);
        Distribute(k, 1, mode.w);
        SpliceMore(before, off, RowBytes(mode, blt, start, k), b);
        StoreShadow(at, b);
        at := at + mode.w;
      }
    }

    /** EfiBltVideoFill: fill the first row, copy it to the others, and push it to all of them. */
    method VideoFill(p: Pixel, dx: nat, dy: nat, width: nat, height: nat, ghost dst: Rect)
      requires Valid() && Synced() && InScreen(mode, dx, dy, width, height) && height > 0
      requires dst == RectOf(mode, dx, dy, width, height) && Rows.Within(dst, mode.L, mode.vres)
      modifies shadow, phys
      ensures Synced()
      ensures Replaced(old(shadow[..]), shadow[..], mode.L, mode.vres, dst, Same(FillBytes(mode, p, width), height), 0, height)
    {
      hide Row, Replaced, Splice, FillBytes;
      ghost var L, v, before := mode.L, mode.vres, shadow[..];
      ghost var rows := Same(FillBytes(mode, p, width), height);
      var first, total := Row(mode.L, dy) + dx * mode.w, width * mode.w;
      ReplacedNothing(before, L, v, dst, rows, 0);
      ReplacedMore(before, before, L, v, dst, rows, 0, 0, 0);
      FillRow(first, p, width);
      for i := 1 to height
        invariant phys[..] == before && Replaced(before, shadow[..], L, v, dst, rows, 0, i)
      {
        RowReplaced(before, shadow[..], L, v, dst, rows, 0, i, 0);
        ReplacedMore(before, shadow[..], L, v, dst, rows, 0, i, i);
        CopyShadow(Row(mode.L, dy + i) + dx * mode.w, first, total);
      }
      RowReplaced(before, shadow[..], L, v, dst, rows, 0, height, 0);
      PushRows(first, dx, dy, height, total, dst, before, rows);
      ReplacedUnique(before, shadow[..], phys[..], L, v, dst, rows);
    }

    /** Push one row of the shadow to every row of a rectangle. */
    method PushRows(first: nat, dx: nat, dy: nat, height: nat, total: nat, ghost dst: Rect, ghost before: seq<uint8>, ghost rows: seq<seq<uint8>>)
      requires Valid() && Rows.Within(dst, mode.L, mode.vres) && dst == Rect(dy, dx * mode.w, height, total)
      requires phys[..] == before && first + total <= shadow.Length && rows == Same(shadow[first..first + total], height)
      modifies phys
      ensures Replaced(before, phys[..], mode.L, mode.vres, dst, rows, 0, height)
    {
      hide Row, Replaced, Splice;
      ghost var L, v, done := mode.L, mode.vres, shadow[..];
      ReplacedNothing(before, L, v, dst, rows, 0);
      for i := 0 to height
        invariant Replaced(before, phys[..], L, v, dst, rows, 0, i)
      {
        ReplacedMore(before, phys[..], L, v, dst, rows, 0, i, i);
        CopyVideoBuffer(first, dx, dy + i, total);
      }
    }

    /** EfiBltBufferToVideo; delta is the number of bytes in a row of the caller's buffer. */
    method BufferToVideo(blt: seq<uint8>, sx: nat, sy: nat, dx: nat, dy: nat, width: nat, height: nat, delta: nat, ghost dst: Rect)
      requires Valid() && Synced() && InScreen(mode, dx, dy, width, height) && InBuffer(blt, sx, sy, width, height, delta)
      requires dst == RectOf(mode, dx, dy, width, height) && Rows.Within(dst, mode.L, mode.vres)
      modifies shadow, phys
      ensures Synced()
      ensures Replaced(old(shadow[..]), shadow[..], mode.L, mode.vres, dst, BufferRows(mode, blt, sx, sy, width, height, delta), 0, height)
    {
      hide Row, Replaced, Splice, RowBytes;
      ghost var L, v, before := mode.L, mode.vres, shadow[..];
      ghost var rows := BufferRows(mode, blt, sx, sy, width, height, delta);
      ReplacedNothing(before, L, v, dst, rows, 0);
      var total := width * mode.w;
      for i := 0 to height
        invariant Synced() && Replaced(before, shadow[..], L, v, dst, rows, 0, i)
      {
        ReplacedMore(before, shadow[..], L, v, dst, rows, 0, i, i);
        ghost var now := shadow[..];
        assert StartInBuffer(blt, sx, sy, width, delta, i);
        PutRow(Row(mode.L, dy + i) + dx * mode.w, blt, Start(sx, sy, delta, i), width);
        Push(dx, dy + i, total, now, rows[i]);
      }
    }

    /** One row of the screen into a caller's buffer. */
    method ReadInto(blt: array<uint8>, to: nat, off: nat, width: nat)
      requires Valid() && blt != shadow && blt != phys && to + 4 * width <= blt.Length && off + width * mode.w <= shadow.Length
      modifies blt
      ensures blt[..] == Splice(old(blt[..]), to, ReadRow(mode, shadow[..], off, width))
    {
      hide Row, Splice, Decode;
      ghost var before, s := blt[..], shadow[..];
      SpliceNothing(before, to);
      var from := off;
      for k := 0 to width
        invariant from == off + k * mode.w && shadow[..] == s
        invariant blt[..] == Splice(before, to, ReadRow(mode, s, off, k))
      {
        MulMono(k + 1, width, mode.w);
        Distribute(k, 1, mode.w);
        var b := BltBytes(Decode(mode.layout, WordFrom(shadow[..], from)));
        SpliceMore(before, to, ReadRow(mode, s, off, k), b);
        StoreBytes(blt, to + 4 * k, b);
        from := from + mode.w;
      }
    }

    /** EfiBltVideoToBltBuffer; the buffer has rows of delta bytes. */
    method VideoToBuffer(blt: array<uint8>, sx: nat, sy: nat, dx: nat, dy: nat, width: nat, height: nat, delta: nat, ghost v: nat)
      returns (status: Status)
      requires Valid() && blt != shadow && blt != phys && blt.Length == Row(Delta(delta, width), v)
      requires Rows.Within(Rect(dy, 4 * dx, height, 4 * width), Delta(delta, width), v)
      requires InWords(sx, sy, width, height) && !WrapsOnto(mode, sx, sy, width, height)
      modifies blt
      ensures status == Success <==> width > 0 && height > 0 && InScreen(mode, sx, sy, width, height)
      ensures status != Success ==> blt[..] == old(blt[..])
      ensures status == Success ==>
        Replaced(old(blt[..]), blt[..], Delta(delta, width), v, Rect(dy, 4 * dx, height, 4 * width),
                 ScreenRows(mode, shadow[..], sx, sy, width, height), 0, height)
    {
      hide Row, Replaced, Splice, ReadRow;
      if width == 0 || height == 0 {
        return InvalidParameter;
      }
      PassesExactly(mode, sx, sy, width, height);
      if !Passes(mode, sx, sy, width, height) {
        return InvalidParameter;
      }
      var L := Delta(delta, width);
      ghost var before, dst := blt[..], Rect(dy, 4 * dx, height, 4 * width);
      ghost var rows := ScreenRows(mode, shadow[..], sx, sy, width, height);
      ReplacedNothing(before, L, v, dst, rows, 0);
      for i := 0 to height
        invariant Replaced(before, blt[..], L, v, dst, rows, 0, i)
      {
        ReplacedMore(before, blt[..], L, v, dst, rows, 0, i, i);
        RowFits(mode, sx, sy + i, width);
        ReadInto(blt, Row(L, dy + i) + 4 * dx, Row(mode.L, sy + i) + sx * mode.w, width);
      }
      status := Success;
    }

    /** The block transfer; the driver checks the destination and leaves source and buffer to the caller. */
    method Blt(op: Operation, blt: seq<uint8>, sx: nat, sy: nat, dx: nat, dy: nat, width: nat, height: nat, delta: nat)
      returns (status: Status)
      requires Valid() && Synced() && CallerOk(mode, op, blt, sx, sy, width, height, Delta(delta, width))
      requires InWords(dx, dy, width, height) && !WrapsOnto(mode, dx, dy, width, height)
      modifies shadow, phys
      ensures Synced()
      ensures status == Success <==> width > 0 && height > 0 && InScreen(mode, dx, dy, width, height)
      ensures status != Success ==> shadow[..] == old(shadow[..])
      ensures status == Success ==>
        Replaced(old(shadow[..]), shadow[..], mode.L, mode.vres, RectOf(mode, dx, dy, width, height),
                 NewRows(old(shadow[..]), mode, op, blt, sx, sy, width, height, Delta(delta, width)), 0, height)
    {
      hide Row, Replaced, FillBytes, RowBytes;
      if width == 0 || height == 0 {
        return InvalidParameter;
      }
      PassesExactly(mode, dx, dy, width, height);
      if !Passes(mode, dx, dy, width, height) {
        return InvalidParameter;
      }
      ghost var dst := RectOf(mode, dx, dy, width, height);
      RectWithin(mode, dx, dy, width, height);
      match op {
        case VideoFill =>
          VideoFill(PixelAt(blt, 0), dx, dy, width, height, dst);
        case BufferToVideo =>
          BufferToVideo(blt, sx, sy, dx, dy, width, height, Delta(delta, width), dst);
        case VideoToVideo =>
          RectWithin(mode, sx, sy, width, height);
          VideoToVideo(sx, sy, dx, dy, width, height, RectOf(mode, sx, sy, width, height), dst);
      }
      status := Success;
    }
  }

  // ---- reading pixels back

  /** The four bytes at off as a word; in 24-bit modes the last one is not the pixel's, and past the end it is taken as 0. */
  function WordFrom(s: seq<uint8>, off: nat): uint32
    requires off + 3 <= |s|
  {
    Word32(s[off..off + 3] + [if off + 3 < |s| then s[off + 3] else 0])
  }

  /** A pixel in a caller's buffer. */
  function BltBytes(p: Pixel): seq<uint8>
  {
    [p.blue, p.green, p.red, 0]
  }

  /** k pixels of the screen as a caller's buffer has them. */
  function ReadRow(m: Mode, s: seq<uint8>, off: nat, k: nat): (b: seq<uint8>)
    requires ModeOk(m) && off + k * m.w <= |s|
    ensures |b| == 4 * k
  {
    if k == 0 then []
    else
      Distribute(k - 1, 1, m.w);
      ReadRow(m, s, off, k - 1) + BltBytes(Decode(m.layout, WordFrom(s, off + (k - 1) * m.w)))
  }

  function ScreenRow(m: Mode, s: seq<uint8>, x: nat, y: nat, width: nat): (b: seq<uint8>)
    requires ModeOk(m) && x + width <= m.hres && y < m.vres && |s| == Row(m.L, m.vres)
    ensures |b| == 4 * width
  {
    RowFits(m, x, y, width);
    ReadRow(m, s, Row(m.L, y) + x * m.w, width)
  }

  function ScreenRows(m: Mode, s: seq<uint8>, x: nat, y: nat, width: nat, height: nat): (rows: seq<seq<uint8>>)
    requires ModeOk(m) && InScreen(m, x, y, width, height) && |s| == Row(m.L, m.vres)
    ensures |rows| == height && forall i :: 0 <= i < height ==> rows[i] == ScreenRow(m, s, x, y + i, width)
  {
    seq(height, i requires 0 <= i < height => ScreenRow(m, s, x, y + i, width))
  }

  lemma RowFits(m: Mode, x: nat, y: nat, width: nat)
    requires ModeOk(m) && x + width <= m.hres && y < m.vres
    ensures Row(m.L, y) + x * m.w + width * m.w <= Row(m.L, m.vres)
  {
    RectWithin(m, x, y, width, 1);
    RowMono(m.L, y, m.vres);
  }

  /** The low bytes of a word do not depend on the high one. */
  lemma LowBytes(b: seq<uint8>, c: seq<uint8>, w: nat)
    requires |b| == |c| == 4 && 3 <= w <= 4 && b[..w] == c[..w]
    ensures Low(Word32(b), 8 * w) == Low(Word32(c), 8 * w)
  {
    hide Low, Word32;
    if w == 4 {
      assert b == b[..4] && c == c[..4];
    } else {
      forall i | 0 <= i < 3 ensures b[i] == c[i] { assert b[i] == b[..3][i] && c[i] == c[..3][i]; }
      LowOf24(b);
      LowOf24(c);
    }
  }

  lemma LowOf24(b: seq<uint8>)
    requires |b| == 4
    ensures Low(Word32(b), 24) == b[0] as int + 0x100 * b[1] as int + 0x1_0000 * b[2] as int
  {
    hide Low, Pow2;
    Pow2Values();
    Pow2Add(8, 16);
    ShrIsDiv(Word32(b), 24);
  }

  /** A pixel on the screen reads back as its masked colours. */
  lemma PixelBack(m: Mode, s: seq<uint8>, off: nat, p: Pixel)
    requires ModeOk(m) && off + m.w <= |s| && s[off..off + m.w] == PixelBytes(m, p) && LayoutOk(m.layout, 8 * m.w)
    ensures Decode(m.layout, WordFrom(s, off)) == Masked(m.layout, p)
  {
    hide Encode, Decode, Masked, LayoutOk, Word32, Word32Bytes;
    var b := s[off..off + 3] + [if off + 3 < |s| then s[off + 3] else 0];
    var c := Word32Bytes(Encode(m.layout, p));
    forall i | 0 <= i < m.w ensures b[i] == c[i] { assert c[i] == s[off..off + m.w][i]; }
    assert b[..m.w] == c[..m.w];
    LowBytes(b, c, m.w);
    PixelReads(m.layout, p, Word32(b), 8 * m.w);
  }

  /** The masked pixels of a caller's buffer. */
  function MaskedRow(m: Mode, blt: seq<uint8>, start: nat, k: nat): seq<uint8>
    requires start + 4 * k <= |blt|
  {
    if k == 0 then [] else MaskedRow(m, blt, start, k - 1) + BltBytes(Masked(m.layout, PixelAt(blt, start + 4 * (k - 1))))
  }

  /** A row written from a caller's buffer reads back as the masked pixels. */
  lemma {:induction false} RowBack(m: Mode, s: seq<uint8>, off: nat, blt: seq<uint8>, start: nat, k: nat)
    requires ModeOk(m) && LayoutOk(m.layout, 8 * m.w) && start + 4 * k <= |blt| && off + k * m.w <= |s|
    requires s[off..off + k * m.w] == RowBytes(m, blt, start, k)
    ensures ReadRow(m, s, off, k) == MaskedRow(m, blt, start, k)
    decreases k
  {
    hide Decode, Masked, LayoutOk, PixelBytes, WordFrom, PixelAt;
    if k > 0 {
      Distribute(k - 1, 1, m.w);
      var p, x := PixelAt(blt, start + 4 * (k - 1)), off + (k - 1) * m.w;
      var b := s[off..off + k * m.w];
      assert b[..(k - 1) * m.w] == RowBytes(m, blt, start, k - 1);
      assert b[(k - 1) * m.w..] == PixelBytes(m, p);
      assert s[off..x] == b[..(k - 1) * m.w];
      assert s[x..x + m.w] == b[(k - 1) * m.w..];
      RowBack(m, s, off, blt, start, k - 1);
      PixelBack(m, s, x, p);
    }
  }

  /** What a buffer-to-video transfer wrote, reading the same rectangle gives back, as far as the masks go. */
  lemma ScreenBack(m: Mode, before: seq<uint8>, after: seq<uint8>, blt: seq<uint8>,
                   sx: nat, sy: nat, dx: nat, dy: nat, width: nat, height: nat, delta: nat, i: nat)
    requires ModeOk(m) && LayoutOk(m.layout, 8 * m.w) && InScreen(m, dx, dy, width, height)
    requires InBuffer(blt, sx, sy, width, height, delta) && i < height
    requires Replaced(before, after, m.L, m.vres, RectOf(m, dx, dy, width, height),
                      BufferRows(m, blt, sx, sy, width, height, delta), 0, height)
    ensures StartInBuffer(blt, sx, sy, width, delta, i)
    ensures ScreenRow(m, after, dx, dy + i, width) == MaskedRow(m, blt, Start(sx, sy, delta, i), width)
  {
    hide LayoutOk, RowBytes, Row, ReadRow, MaskedRow;
    var rows := BufferRows(m, blt, sx, sy, width, height, delta);
    assert StartInBuffer(blt, sx, sy, width, delta, i);
    RowReplaced(before, after, m.L, m.vres, RectOf(m, dx, dy, width, height), rows, 0, height, i);
    RowBack(m, after, Row(m.L, dy + i) + dx * m.w, blt, Start(sx, sy, delta, i), width);
  }

  predicate InScreen(m: Mode, x: nat, y: nat, width: nat, height: nat)
  {
    x + width <= m.hres && y + height <= m.vres
  }

  /** Where row i starts in the caller's buffer. */
  function Start(sx: nat, sy: nat, delta: nat, i: nat): nat
  {
    (sy + i) * delta + sx * 4
  }

  predicate StartInBuffer(blt: seq<uint8>, sx: nat, sy: nat, width: nat, delta: nat, i: nat)
  {
    Start(sx, sy, delta, i) + 4 * width <= |blt|
  }

  /** The caller's buffer has the rectangle. */
  predicate InBuffer(blt: seq<uint8>, sx: nat, sy: nat, width: nat, height: nat, delta: nat)
  {
    forall i :: 0 <= i < height ==> StartInBuffer(blt, sx, sy, width, delta, i)
  }

  function BufferRows(m: Mode, blt: seq<uint8>, sx: nat, sy: nat, width: nat, height: nat, delta: nat): (rows: seq<seq<uint8>>)
    requires ModeOk(m) && InBuffer(blt, sx, sy, width, height, delta)
    ensures |rows| == height
    ensures forall i :: 0 <= i < height ==>
      StartInBuffer(blt, sx, sy, width, delta, i) && rows[i] == RowBytes(m, blt, Start(sx, sy, delta, i), width)
  {
    seq(height, i requires 0 <= i < height =>
      assert StartInBuffer(blt, sx, sy, width, delta, i);
      RowBytes(m, blt, Start(sx, sy, delta, i), width))
  }

  /** A delta of zero stands for a buffer that is as wide as the rectangle. */
  function Delta(delta: nat, width: nat): nat
  {
    if delta == 0 then width * 4 else delta
  }

  /** What the driver does not check. */
  predicate CallerOk(m: Mode, op: Operation, blt: seq<uint8>, sx: nat, sy: nat, width: nat, height: nat, delta: nat)
  {
    match op
    case VideoFill => |blt| >= 4
    case BufferToVideo => InBuffer(blt, sx, sy, width, height, delta)
    case VideoToVideo => InScreen(m, sx, sy, width, height)
  }

  /** The rows that the operation puts in the destination, in terms of the screen before it. */
  function NewRows(s: seq<uint8>, m: Mode, op: Operation, blt: seq<uint8>, sx: nat, sy: nat, width: nat, height: nat, delta: nat)
    : (rows: seq<seq<uint8>>)
    requires ModeOk(m) && |s| == Row(m.L, m.vres) && CallerOk(m, op, blt, sx, sy, width, height, delta)
    ensures |rows| == height
  {
    match op
    case VideoFill => Same(FillBytes(m, PixelAt(blt, 0), width), height)
    case BufferToVideo => BufferRows(m, blt, sx, sy, width, height, delta)
    case VideoToVideo =>
      RectWithin(m, sx, sy, width, height);
      RowsOf(s, m.L, m.vres, RectOf(m, sx, sy, width, height))
  }

  // ---- the driver's check

  predicate InWords(x: nat, y: nat, width: nat, height: nat)
  {
    x < TWO64 && y < TWO64 && width < TWO64 && height < TWO64
  }

  /** The check of the driver, whose sums are taken in 64 bits. */
  predicate Passes(m: Mode, x: nat, y: nat, width: nat, height: nat)
  {
    (y + height) % TWO64 <= m.vres && (x + width) % TWO64 <= m.hres
  }

  /** A sum wraps around, and both sums end up on the screen. */
  predicate WrapsOnto(m: Mode, x: nat, y: nat, width: nat, height: nat)
  {
    (x + width >= TWO64 || y + height >= TWO64) && Passes(m, x, y, width, height)
  }

  /** The check is right exactly for the rectangles that do not wrap around onto the screen. */
  lemma PassesExactly(m: Mode, x: nat, y: nat, width: nat, height: nat)
    requires InWords(x, y, width, height) && m.hres < TWO64 && m.vres < TWO64
    ensures (Passes(m, x, y, width, height) <==> InScreen(m, x, y, width, height)) <==> !WrapsOnto(m, x, y, width, height)
  {
    if x + width < TWO64 { ModSmall(x + width, TWO64); }
    if y + height < TWO64 { ModSmall(y + height, TWO64); }
  }

  /** One pixel at the last coordinates of all passes the check on every screen. */
  lemma WrappingPixelPasses(m: Mode)
    requires m.hres < TWO64 && m.vres < TWO64
    ensures
      var last := TWO64 - 1;
      InWords(last, last, 1, 1) && Passes(m, last, last, 1, 1) && WrapsOnto(m, last, last, 1, 1) && !InScreen(m, last, last, 1, 1)
  {
  }
}
