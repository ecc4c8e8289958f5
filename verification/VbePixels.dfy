/**
 Block transfers bit by bit: which byte of the caller's buffer a bit of the
 screen comes from, and the other way round. Places are in plain arithmetic.
 */
module VbePixels {
  import opened Words
  import opened Bytes
  import opened Rows
  import opened Pixels
  import opened VbeBlt

  // ---- places

  lemma {:induction false} RowIsMul(L: nat, y: nat)
    ensures Row(L, y) == y * L
  {
    if y > 0 {
      RowIsMul(L, y - 1);
      Distribute(y - 1, 1, L);
    }
  }

  /** Where the pixel in column x of line y starts. */
  function PixelPlace(m: Mode, x: nat, y: nat): nat
  {
    y * m.L + x * m.w
  }

  /** Where the pixel in column x of line y starts in a caller's buffer with lines of d bytes. */
  function BufferPlace(d: nat, x: nat, y: nat): nat
  {
    y * d + 4 * x
  }

  // ---- bits

  /** Bit k of the four bytes from o on; past the end there are zeros. */
  function ScreenBit(s: seq<uint8>, o: nat, k: nat): nat
  {
    if k < 32 && o + k / 8 < |s| then BitAt(s[o + k / 8], k % 8) else 0
  }

  lemma BitOfSum(lo: uint8, hi: nat, k: nat)
    ensures BitAt(lo as int + 0x100 * hi, k) == if k < 8 then BitAt(lo, k) else BitAt(hi, k - 8)
  {
    hide BitAt, Shl, Shr, Low;
    Pow2Values();
    var w: nat := lo as int + 0x100 * hi;
    ShlIsMul(hi, 8);
    ShlParts(hi, lo, 8);
    BitOfLow(w, 8, k);
    if k >= 8 { BitOfShr(w, 8, k - 8); }
  }

  /** The bits of a word are those of its four bytes. */
  lemma BitOfWord(b: seq<uint8>, k: nat)
    requires |b| == 4
    ensures BitAt(Word32(b), k) == if k < 32 then BitAt(b[k / 8], k % 8) else 0
  {
    hide BitAt;
    var c: nat := b[3];
    var d: nat := b[2] as int + 0x100 * c;
    var e: nat := b[1] as int + 0x100 * d;
    BitOfSum(b[0], e, k);
    if k >= 8 { BitOfSum(b[1], d, k - 8); }
    if k >= 16 { BitOfSum(b[2], c, k - 16); }
    if k >= 24 { BitOfSum(b[3], 0, k - 24); }
    if k >= 32 { BitsOfZero(k - 32); }
  }

  lemma BitsOfZero(k: nat)
    ensures BitAt(0, k) == 0
  {
    ShrZero(k);
  }

  /** A bit of a colour in its place. */
  lemma BitOfField(c: uint8, f: Field, k: nat)
    requires k < 32
    ensures BitAt(InField(c, f), k) == 1 <==> Owns(f, k) && BitAt(c, k - f.position) == 1
  {
    hide BitAt, Shl, Low, And;
    BitOfLow(Shl(And(c, f.mask), f.position), 32, k);
    BitOfShl(And(c, f.mask), f.position, k);
    if k >= f.position { BitOfAnd(c, f.mask, k - f.position); }
  }

  /** Bit k of a pixel with these colours is set. */
  predicate Lit(l: Layout, blue: uint8, green: uint8, red: uint8, k: nat)
  {
    || (Owns(l.blue, k) && BitAt(blue, k - l.blue.position) == 1)
    || (Owns(l.green, k) && BitAt(green, k - l.green.position) == 1)
    || (Owns(l.red, k) && BitAt(red, k - l.red.position) == 1)
  }

  lemma LitExactly(l: Layout, p: Pixel, k: nat)
    requires k < 32
    ensures BitAt(Encode(l, p), k) == 1 <==> Lit(l, p.blue, p.green, p.red, k)
  {
    hide BitAt, InField, Or, Owns;
    var r, g, b := InField(p.red, l.red), InField(p.green, l.green), InField(p.blue, l.blue);
    BitOfField(p.red, l.red, k);
    BitOfField(p.green, l.green, k);
    BitOfField(p.blue, l.blue, k);
    BitOfOr(r, g, k);
    BitOfOr(OrWord(r, g), b, k);
  }

  /** The pixel at o shows the colours, whatever the layout of the mode. */
  ghost predicate Shows(m: Mode, s: seq<uint8>, o: nat, blue: uint8, green: uint8, red: uint8)
  {
    forall k :: 0 <= k < 8 * m.w ==> (ScreenBit(s, o, k) == 1 <==> Lit(m.layout, blue, green, red, k))
  }

  lemma PixelShows(m: Mode, s: seq<uint8>, o: nat, p: Pixel)
    requires ModeOk(m) && o + m.w <= |s| && s[o..o + m.w] == PixelBytes(m, p)
    ensures Shows(m, s, o, p.blue, p.green, p.red)
  {
    hide BitAt, Lit, Encode, Word32, Word32Bytes;
    var c := Word32Bytes(Encode(m.layout, p));
    forall k | 0 <= k < 8 * m.w ensures ScreenBit(s, o, k) == 1 <==> Lit(m.layout, p.blue, p.green, p.red, k) {
      BitOfWord(c, k);
      LitExactly(m.layout, p, k);
      assert s[o + k / 8] == s[o..o + m.w][k / 8] == c[k / 8];
    }
  }

  // ---- to the screen

  lemma FrontSlice(b: seq<uint8>, c: seq<uint8>, x: nat, k: nat)
    requires x + k <= |b|
    ensures (b + c)[x..x + k] == b[x..x + k]
  {
  }

  lemma BackSlice(b: seq<uint8>, c: seq<uint8>)
    ensures (b + c)[|b|..|b| + |c|] == c
  {
  }

  /** The bytes of pixel j of a line. */
  function PixelIn(line: seq<uint8>, w: nat, j: nat): seq<uint8>
    requires j * w + w <= |line|
  {
    line[j * w..j * w + w]
  }

  lemma PixelEnds(j: nat, n: nat, w: nat)
    requires j < n
    ensures j * w + w <= n * w && n * w == (n - 1) * w + w
  {
    Distribute(j, 1, w);
    Distribute(n - 1, 1, w);
    MulMono(j + 1, n, w);
  }

  lemma RowStep(m: Mode, blt: seq<uint8>, off: nat, n: nat)
    requires ModeOk(m) && off + 4 * n <= |blt| && n > 0
    ensures RowBytes(m, blt, off, n) == RowBytes(m, blt, off, n - 1) + PixelBytes(m, PixelAt(blt, off + 4 * (n - 1)))
  {
    hide PixelBytes, PixelAt;
  }

  lemma {:induction false} RowPixel(m: Mode, blt: seq<uint8>, off: nat, n: nat, j: nat, line: seq<uint8>)
    requires ModeOk(m) && off + 4 * n <= |blt| && j < n && line == RowBytes(m, blt, off, n)
    ensures j * m.w + m.w <= |line| && PixelIn(line, m.w, j) == PixelBytes(m, PixelAt(blt, off + 4 * j))
    decreases n
  {
    hide PixelBytes, PixelAt, RowBytes;
    PixelEnds(j, n, m.w);
    RowStep(m, blt, off, n);
    var b, c := RowBytes(m, blt, off, n - 1), PixelBytes(m, PixelAt(blt, off + 4 * (n - 1)));
    if j < n - 1 {
      RowPixel(m, blt, off, n - 1, j, b);
      FrontSlice(b, c, j * m.w, m.w);
    } else {
      BackSlice(b, c);
    }
  }

  lemma FillStep(m: Mode, p: Pixel, n: nat)
    requires ModeOk(m) && n > 0
    ensures FillBytes(m, p, n) == FillBytes(m, p, n - 1) + PixelBytes(m, p)
  {
    hide PixelBytes;
  }

  lemma {:induction false} FillPixel(m: Mode, p: Pixel, n: nat, j: nat, line: seq<uint8>)
    requires ModeOk(m) && j < n && line == FillBytes(m, p, n)
    ensures j * m.w + m.w <= |line| && PixelIn(line, m.w, j) == PixelBytes(m, p)
    decreases n
  {
    hide PixelBytes, FillBytes;
    PixelEnds(j, n, m.w);
    FillStep(m, p, n);
    var b, c := FillBytes(m, p, n - 1), PixelBytes(m, p);
    if j < n - 1 {
      FillPixel(m, p, n - 1, j, b);
      FrontSlice(b, c, j * m.w, m.w);
    } else {
      BackSlice(b, c);
    }
  }

  lemma SubSlice(s: seq<uint8>, at: nat, n: nat, x: nat, k: nat)
    requires at + n <= |s| && x + k <= n
    ensures s[at..at + n][x..x + k] == s[at + x..at + x + k]
  {
    var a := s[at..at + n][x..x + k];
    forall i | 0 <= i < k ensures a[i] == s[at + x..at + x + k][i] {
      assert s[at..at + n][x + i] == s[at + (x + i)];
    }
  }

  lemma RowsShape(s: seq<uint8>, t: seq<uint8>, L: nat, v: nat, r: Rect, rows: seq<seq<uint8>>, i: nat)
    requires Replaced(s, t, L, v, r, rows, 0, r.h) && i < r.h
    ensures |rows| == r.h && |rows[i]| == r.n
  {
  }

  /** Pixel j of a line that starts in column x. */
  lemma PixelOfRow(m: Mode, x: nat, y: nat, width: nat, j: nat)
    requires j < width
    ensures PixelPlace(m, x + j, y) == Row(m.L, y) + x * m.w + j * m.w && j * m.w + m.w <= width * m.w
  {
    RowIsMul(m.L, y);
    Distribute(x, j, m.w);
    Distribute(j, 1, m.w);
    MulMono(j + 1, width, m.w);
  }

  /** A pixel of a line that is on the screen from column x of line y on. */
  lemma PixelOfLine(m: Mode, s: seq<uint8>, x: nat, y: nat, width: nat, j: nat, line: seq<uint8>)
    requires j < width && |line| == width * m.w && Row(m.L, y) + x * m.w + |line| <= |s|
    requires var at := Row(m.L, y) + x * m.w; s[at..at + |line|] == line
    ensures var o := PixelPlace(m, x + j, y); o + m.w <= |s| && j * m.w + m.w <= |line| && s[o..o + m.w] == PixelIn(line, m.w, j)
  {
    hide Row, PixelPlace;
    PixelOfRow(m, x, y, width, j);
    SubSlice(s, Row(m.L, y) + x * m.w, |line|, j * m.w, m.w);
  }

  /** The bytes of one pixel of a replaced rectangle. */
  lemma PixelReplaced(m: Mode, before: seq<uint8>, after: seq<uint8>, x: nat, y: nat, width: nat, height: nat,
                      rows: seq<seq<uint8>>, i: nat, j: nat)
    requires ModeOk(m) && InScreen(m, x, y, width, height) && i < height && j < width
    requires Replaced(before, after, m.L, m.vres, RectOf(m, x, y, width, height), rows, 0, height)
    ensures |rows| == height && |rows[i]| == width * m.w && j * m.w + m.w <= |rows[i]|
    ensures var o := PixelPlace(m, x + j, y + i); o + m.w <= |after| && after[o..o + m.w] == PixelIn(rows[i], m.w, j)
  {
    hide Row, PixelPlace, Replaced, PixelIn;
    RowsShape(before, after, m.L, m.vres, RectOf(m, x, y, width, height), rows, i);
    RowReplaced(before, after, m.L, m.vres, RectOf(m, x, y, width, height), rows, 0, height, i);
    PixelOfLine(m, after, x, y + i, width, j, rows[i]);
  }

  /** The pixel at o of t has the bytes that the pixel at q of s has. */
  predicate SamePixel(m: Mode, s: seq<uint8>, q: nat, t: seq<uint8>, o: nat)
  {
    q + m.w <= |s| && o + m.w <= |t| && t[o..o + m.w] == s[q..q + m.w]
  }

  /** Byte c of line y is left alone. */
  predicate Kept(L: nat, s: seq<uint8>, t: seq<uint8>, y: nat, c: nat)
  {
    y * L + c < |s| == |t| && t[y * L + c] == s[y * L + c]
  }

  /** The colours of the pixel in column x of line y of a caller's buffer with lines of d bytes: blue, green, red. */
  ghost predicate ShowsBuffer(m: Mode, s: seq<uint8>, o: nat, blt: seq<uint8>, d: nat, x: nat, y: nat)
  {
    var at := BufferPlace(d, x, y);
    at + 2 < |blt| && Shows(m, s, o, blt[at], blt[at + 1], blt[at + 2])
  }

  lemma ShowsPixelAt(m: Mode, t: seq<uint8>, o: nat, blt: seq<uint8>, d: nat, x: nat, y: nat, at: nat)
    requires at == BufferPlace(d, x, y) && at + 4 <= |blt|
    requires var p := PixelAt(blt, at); Shows(m, t, o, p.blue, p.green, p.red)
    ensures ShowsBuffer(m, t, o, blt, d, x, y)
  {
    hide Shows;
  }

  /** What the screen is to show in the destination. */
  ghost predicate Transferred(m: Mode, op: Operation, blt: seq<uint8>, s: seq<uint8>, t: seq<uint8>,
                              sx: nat, sy: nat, dx: nat, dy: nat, width: nat, delta: nat, i: nat, j: nat)
  {
    var o := PixelPlace(m, dx + j, dy + i);
    match op
    case VideoFill => |blt| > 2 && Shows(m, t, o, blt[0], blt[1], blt[2])
    case BufferToVideo => ShowsBuffer(m, t, o, blt, if delta == 0 then 4 * width else delta, sx + j, sy + i)
    case VideoToVideo => SamePixel(m, s, PixelPlace(m, sx + j, sy + i), t, o)
  }

  lemma FillTransferred(m: Mode, blt: seq<uint8>, s: seq<uint8>, t: seq<uint8>,
                        dx: nat, dy: nat, width: nat, height: nat, i: nat, j: nat)
    requires ModeOk(m) && InScreen(m, dx, dy, width, height) && i < height && j < width && |blt| >= 4
    requires Replaced(s, t, m.L, m.vres, RectOf(m, dx, dy, width, height), Same(FillBytes(m, PixelAt(blt, 0), width), height), 0, height)
    ensures Shows(m, t, PixelPlace(m, dx + j, dy + i), blt[0], blt[1], blt[2])
  {
    hide Shows, PixelBytes, Replaced, FillBytes, PixelPlace, PixelIn, RectOf, ModeOk, InScreen;
    var p := PixelAt(blt, 0);
    var line, o := FillBytes(m, p, width), PixelPlace(m, dx + j, dy + i);
    PixelReplaced(m, s, t, dx, dy, width, height, Same(line, height), i, j);
    FillPixel(m, p, width, j, line);
    PixelShows(m, t, o, p);
  }

  lemma BufferTransferred(m: Mode, blt: seq<uint8>, s: seq<uint8>, t: seq<uint8>,
                          sx: nat, sy: nat, dx: nat, dy: nat, width: nat, height: nat, d: nat, i: nat, j: nat)
    requires ModeOk(m) && InScreen(m, dx, dy, width, height) && i < height && j < width && InBuffer(blt, sx, sy, width, height, d)
    requires Replaced(s, t, m.L, m.vres, RectOf(m, dx, dy, width, height), BufferRows(m, blt, sx, sy, width, height, d), 0, height)
    ensures ShowsBuffer(m, t, PixelPlace(m, dx + j, dy + i), blt, d, sx + j, sy + i)
  {
    hide Shows, PixelBytes, Replaced, RowBytes, PixelPlace, PixelIn, RectOf;
    PixelReplaced(m, s, t, dx, dy, width, height, BufferRows(m, blt, sx, sy, width, height, d), i, j);
    assert StartInBuffer(blt, sx, sy, width, d, i);
    var start := Start(sx, sy, d, i);
    RowPixel(m, blt, start, width, j, RowBytes(m, blt, start, width));
    PixelShows(m, t, PixelPlace(m, dx + j, dy + i), PixelAt(blt, start + 4 * j));
    hide ShowsBuffer;
    ShowsPixelAt(m, t, PixelPlace(m, dx + j, dy + i), blt, d, sx + j, sy + i, start + 4 * j);
  }

  lemma VideoTransferred(m: Mode, s: seq<uint8>, t: seq<uint8>,
                         sx: nat, sy: nat, dx: nat, dy: nat, width: nat, height: nat, rows: seq<seq<uint8>>, i: nat, j: nat)
    requires ModeOk(m) && InScreen(m, sx, sy, width, height) && InScreen(m, dx, dy, width, height) && i < height && j < width
    requires |s| == Row(m.L, m.vres) && Rows.Within(RectOf(m, sx, sy, width, height), m.L, m.vres)
    requires rows == RowsOf(s, m.L, m.vres, RectOf(m, sx, sy, width, height))
    requires Replaced(s, t, m.L, m.vres, RectOf(m, dx, dy, width, height), rows, 0, height)
    ensures SamePixel(m, s, PixelPlace(m, sx + j, sy + i), t, PixelPlace(m, dx + j, dy + i))
  {
    hide Row, Replaced, PixelPlace, PixelIn;
    PixelReplaced(m, s, t, dx, dy, width, height, rows, i, j);
    RowMono(m.L, sy + i, m.vres);
    PixelOfLine(m, s, sx, sy + i, width, j, rows[i]);
  }

  /** Bytes outside the rectangle are left alone. */
  lemma OutsideKept(s: seq<uint8>, t: seq<uint8>, L: nat, v: nat, r: Rect, rows: seq<seq<uint8>>, y: nat, c: nat)
    requires Replaced(s, t, L, v, r, rows, 0, r.h) && y < v && c < L
    requires !(r.y <= y < r.y + r.h && r.c <= c < r.c + r.n)
    ensures Kept(L, s, t, y, c)
  {
    hide Row;
    RowIsMul(L, y);
    RowMono(L, y, v);
    var k := Row(L, y) + c;
    forall i | 0 <= i < r.h ensures !InRow(k, r, L, i) {
      if r.y + i < y { RowMono(L, r.y + i, y); }
      if r.y + i > y { RowMono(L, y, r.y + i); }
    }
  }

  /** The caller's buffer has the rectangle. */
  predicate HasRect(blt: seq<uint8>, x: nat, y: nat, width: nat, height: nat, d: nat)
  {
    forall i :: y <= i < y + height ==> i * d + 4 * (x + width) <= |blt|
  }

  lemma HasRectIs(blt: seq<uint8>, x: nat, y: nat, width: nat, height: nat, d: nat)
    ensures HasRect(blt, x, y, width, height, d) <==> InBuffer(blt, x, y, width, height, d)
  {
    if HasRect(blt, x, y, width, height, d) {
      forall i | 0 <= i < height ensures StartInBuffer(blt, x, y, width, d, i) { assert (y + i) * d + 4 * (x + width) <= |blt|; }
    }
    if InBuffer(blt, x, y, width, height, d) {
      forall i | y <= i < y + height ensures i * d + 4 * (x + width) <= |blt| { assert StartInBuffer(blt, x, y, width, d, i - y); }
    }
  }

  /** The block transfer to the screen, pixel by pixel. */
  method Transfer(screen: VbeScreen, op: Operation, blt: seq<uint8>, sx: nat, sy: nat, dx: nat, dy: nat, width: nat, height: nat, delta: nat)
    returns (status: Status)
    requires screen.Valid() && screen.Synced()
    requires match op
      case VideoFill => |blt| >= 4
      case BufferToVideo => HasRect(blt, sx, sy, width, height, if delta == 0 then 4 * width else delta)
      case VideoToVideo => sx + width <= screen.mode.hres && sy + height <= screen.mode.vres
    requires InWords(dx, dy, width, height) && !WrapsOnto(screen.mode, dx, dy, width, height)
    modifies screen.shadow, screen.phys
    ensures screen.shadow[..] == screen.phys[..]
    ensures status == Success <==> width > 0 && height > 0 && dx + width <= screen.mode.hres && dy + height <= screen.mode.vres
    ensures status != Success ==> screen.shadow[..] == old(screen.shadow[..])
    ensures status == Success ==> forall i, j :: 0 <= i < height && 0 <= j < width ==>
      Transferred(screen.mode, op, blt, old(screen.shadow[..]), screen.shadow[..],
                  sx, sy, dx, dy, width, delta, i, j)
    ensures status == Success ==> forall y: nat, c: nat ::
      y < screen.mode.vres && c < screen.mode.L && !(dy <= y < dy + height && dx * screen.mode.w <= c < (dx + width) * screen.mode.w) ==>
      Kept(screen.mode.L, old(screen.shadow[..]), screen.shadow[..], y, c)
  {
    hide Row, Replaced, FillBytes, RowBytes, Shows, NewRows, Kept, Transferred;
    ghost var m, d, s := screen.mode, Delta(delta, width), screen.shadow[..];
    HasRectIs(blt, sx, sy, width, height, d);
    status := screen.Blt(op, blt, sx, sy, dx, dy, width, height, delta);
    if status == Success {
      ghost var t := screen.shadow[..];
      ghost var rows := NewRows(s, m, op, blt, sx, sy, width, height, d);
      forall i, j | 0 <= i < height && 0 <= j < width ensures Transferred(m, op, blt, s, t, sx, sy, dx, dy, width, delta, i, j) {
        PixelTransferred(m, op, blt, s, t, sx, sy, dx, dy, width, height, delta, d, i, j);
      }
      Distribute(dx, width, m.w);
      forall y: nat, c: nat | y < m.vres && c < m.L && !(dy <= y < dy + height && dx * m.w <= c < (dx + width) * m.w) ensures Kept(m.L, s, t, y, c) {
        OutsideKept(s, t, m.L, m.vres, RectOf(m, dx, dy, width, height), rows, y, c);
      }
    }
  }

  lemma PixelTransferred(m: Mode, op: Operation, blt: seq<uint8>, s: seq<uint8>, t: seq<uint8>,
                         sx: nat, sy: nat, dx: nat, dy: nat, width: nat, height: nat, delta: nat, d: nat, i: nat, j: nat)
    requires ModeOk(m) && InScreen(m, dx, dy, width, height) && i < height && j < width && |s| == Row(m.L, m.vres) && d == Delta(delta, width)
    requires CallerOk(m, op, blt, sx, sy, width, height, d)
    requires Replaced(s, t, m.L, m.vres, RectOf(m, dx, dy, width, height), NewRows(s, m, op, blt, sx, sy, width, height, d), 0, height)
    ensures Transferred(m, op, blt, s, t, sx, sy, dx, dy, width, delta, i, j)
  {
    hide Row, Replaced, FillBytes, RowBytes, Shows, ShowsBuffer, SamePixel;
    match op
    case VideoFill => FillTransferred(m, blt, s, t, dx, dy, width, height, i, j);
    case BufferToVideo => BufferTransferred(m, blt, s, t, sx, sy, dx, dy, width, height, d, i, j);
    case VideoToVideo =>
      RectWithin(m, sx, sy, width, height);
      VideoTransferred(m, s, t, sx, sy, dx, dy, width, height, RowsOf(s, m.L, m.vres, RectOf(m, sx, sy, width, height)), i, j);
  }

  // ---- from the screen

  /** The four bytes at a hold the colours of the pixel at o, as far as the masks go. */
  ghost predicate Reads(m: Mode, s: seq<uint8>, o: nat, blt: seq<uint8>, a: nat)
  {
    && a + 4 <= |blt| && blt[a + 3] == 0
    && forall k :: 0 <= k < 8 ==>
      && (BitAt(blt[a], k) == 1 <==> BitAt(m.layout.blue.mask, k) == 1 && ScreenBit(s, o, m.layout.blue.position + k) == 1)
      && (BitAt(blt[a + 1], k) == 1 <==> BitAt(m.layout.green.mask, k) == 1 && ScreenBit(s, o, m.layout.green.position + k) == 1)
      && (BitAt(blt[a + 2], k) == 1 <==> BitAt(m.layout.red.mask, k) == 1 && ScreenBit(s, o, m.layout.red.position + k) == 1)
  }

  lemma BitOfColour(w: uint32, f: Field, k: nat)
    ensures BitAt(FromField(w, f), k) == 1 <==> BitAt(f.mask, k) == 1 && BitAt(w, f.position + k) == 1
  {
    hide BitAt, And, Shr;
    BitOfAnd(Shr(w, f.position), f.mask, k);
    BitOfShr(w, f.position, k);
  }

  lemma BitFrom(s: seq<uint8>, o: nat, k: nat)
    requires o + 3 <= |s|
    ensures BitAt(WordFrom(s, o), k) == ScreenBit(s, o, k)
  {
    hide BitAt, Word32;
    BitOfWord(s[o..o + 3] + [if o + 3 < |s| then s[o + 3] else 0], k);
    BitsOfZero(k % 8);
  }

  lemma PixelRead(m: Mode, s: seq<uint8>, o: nat, blt: seq<uint8>, a: nat)
    requires o + 3 <= |s| && a + 4 <= |blt| && blt[a..a + 4] == BltBytes(Decode(m.layout, WordFrom(s, o)))
    ensures Reads(m, s, o, blt, a)
  {
    hide BitAt, WordFrom, FromField, ScreenBit;
    var l, w := m.layout, WordFrom(s, o);
    var b := blt[a..a + 4];
    assert b[0] == blt[a] && b[1] == blt[a + 1] && b[2] == blt[a + 2] && b[3] == blt[a + 3];
    forall k | 0 <= k < 8
      ensures BitAt(blt[a], k) == 1 <==> BitAt(l.blue.mask, k) == 1 && ScreenBit(s, o, l.blue.position + k) == 1
      ensures BitAt(blt[a + 1], k) == 1 <==> BitAt(l.green.mask, k) == 1 && ScreenBit(s, o, l.green.position + k) == 1
      ensures BitAt(blt[a + 2], k) == 1 <==> BitAt(l.red.mask, k) == 1 && ScreenBit(s, o, l.red.position + k) == 1
    {
      BitOfColour(w, l.blue, k);
      BitOfColour(w, l.green, k);
      BitOfColour(w, l.red, k);
      BitFrom(s, o, l.blue.position + k);
      BitFrom(s, o, l.green.position + k);
      BitFrom(s, o, l.red.position + k);
    }
  }

  lemma {:induction false} ReadPixel(m: Mode, s: seq<uint8>, off: nat, n: nat, j: nat)
    requires ModeOk(m) && off + n * m.w <= |s| && j < n
    ensures off + j * m.w + m.w <= |s|
    ensures ReadRow(m, s, off, n)[4 * j..4 * j + 4] == BltBytes(Decode(m.layout, WordFrom(s, off + j * m.w)))
    decreases n
  {
    hide Decode, WordFrom;
    Distribute(n - 1, 1, m.w);
    Distribute(j, 1, m.w);
    var b, c := ReadRow(m, s, off, n - 1), BltBytes(Decode(m.layout, WordFrom(s, off + (n - 1) * m.w)));
    assert ReadRow(m, s, off, n) == b + c;
    if j < n - 1 {
      ReadPixel(m, s, off, n - 1, j);
      FrontSlice(b, c, 4 * j, 4);
    } else {
      BackSlice(b, c);
    }
  }

  lemma ScreenRead(m: Mode, s: seq<uint8>, before: seq<uint8>, blt: seq<uint8>,
                   sx: nat, sy: nat, dx: nat, dy: nat, width: nat, height: nat, d: nat, v: nat, i: nat, j: nat)
    requires ModeOk(m) && InScreen(m, sx, sy, width, height) && |s| == Row(m.L, m.vres) && i < height && j < width
    requires Replaced(before, blt, d, v, Rect(dy, 4 * dx, height, 4 * width), ScreenRows(m, s, sx, sy, width, height), 0, height)
    ensures Reads(m, s, PixelPlace(m, sx + j, sy + i), blt, BufferPlace(d, dx + j, dy + i))
  {
    hide Row, Replaced, ReadRow, Decode, WordFrom, Reads;
    var r, rows := Rect(dy, 4 * dx, height, 4 * width), ScreenRows(m, s, sx, sy, width, height);
    RowReplaced(before, blt, d, v, r, rows, 0, height, i);
    RowIsMul(d, dy + i);
    SubSlice(blt, (dy + i) * d + 4 * dx, 4 * width, 4 * j, 4);
    RowFits(m, sx, sy + i, width);
    PixelOfRow(m, sx, sy + i, width, j);
    ReadPixel(m, s, Row(m.L, sy + i) + sx * m.w, width, j);
    PixelRead(m, s, PixelPlace(m, sx + j, sy + i), blt, BufferPlace(d, dx + j, dy + i));
  }

  /** What the caller's buffer is to hold in the destination: blue, green, red and a zero. */
  ghost predicate ReadOut(m: Mode, s: seq<uint8>, blt: seq<uint8>,
                          sx: nat, sy: nat, dx: nat, dy: nat, width: nat, delta: nat, i: nat, j: nat)
  {
    Reads(m, s, PixelPlace(m, sx + j, sy + i), blt, BufferPlace(if delta == 0 then 4 * width else delta, dx + j, dy + i))
  }

  /** The block transfer from the screen, pixel by pixel; the buffer has v lines of d bytes. */
  method ReadBack(screen: VbeScreen, blt: array<uint8>, sx: nat, sy: nat, dx: nat, dy: nat, width: nat, height: nat, delta: nat, ghost v: nat)
    returns (status: Status)
    requires screen.Valid() && blt != screen.shadow && blt != screen.phys
    requires var d := if delta == 0 then 4 * width else delta; blt.Length == v * d && dy + height <= v && 4 * (dx + width) <= d
    requires InWords(sx, sy, width, height) && !WrapsOnto(screen.mode, sx, sy, width, height)
    modifies blt
    ensures status == Success <==> width > 0 && height > 0 && sx + width <= screen.mode.hres && sy + height <= screen.mode.vres
    ensures status != Success ==> blt[..] == old(blt[..])
    ensures status == Success ==> forall i, j :: 0 <= i < height && 0 <= j < width ==>
      ReadOut(screen.mode, screen.shadow[..], blt[..], sx, sy, dx, dy, width, delta, i, j)
    ensures status == Success ==>
      var d := if delta == 0 then 4 * width else delta;
      forall y: nat, c: nat :: y < v && c < d && !(dy <= y < dy + height && 4 * dx <= c < 4 * (dx + width)) ==>
        Kept(d, old(blt[..]), blt[..], y, c)
  {
    hide Row, Replaced, ScreenRows, Kept, Reads;
    ghost var m, d, s, before := screen.mode, Delta(delta, width), screen.shadow[..], blt[..];
    RowIsMul(d, v);
    status := screen.VideoToBuffer(blt, sx, sy, dx, dy, width, height, delta, v);
    if status == Success {
      ghost var rows := ScreenRows(m, s, sx, sy, width, height);
      forall i, j | 0 <= i < height && 0 <= j < width ensures ReadOut(m, s, blt[..], sx, sy, dx, dy, width, delta, i, j) {
        ScreenRead(m, s, before, blt[..], sx, sy, dx, dy, width, height, d, v, i, j);
      }
      forall y: nat, c: nat | y < v && c < d && !(dy <= y < dy + height && 4 * dx <= c < 4 * (dx + width)) ensures Kept(d, before, blt[..], y, c) {
        OutsideKept(before, blt[..], d, v, Rect(dy, 4 * dx, height, 4 * width), rows, y, c);
      }
    }
  }
}
