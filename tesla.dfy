/**
 * Integer pixel arithmetic of the overlay renderer: 4-bit colour blending,
 * the block-linear layout of the framebuffer and the stack of scissor
 * rectangles that clips drawing.
 */
module Tesla {

  type Nibble = x: int | 0 <= x < 16
  type Byte = x: int | 0 <= x < 256

  const UINT32_MAX: int := 0xFFFF_FFFF
  const TWO_32: int := 0x1_0000_0000

  /** The overlay's framebuffer size in pixels. */
  const FB_WIDTH: int := 448
  const FB_HEIGHT: int := 720

  /**
   * Cells of the framebuffer: the block-linear layout stores whole
   * 128-row blocks, so the 720 rows take 768 rows of storage.
   */
  const FB_CELLS: int := 448 * 768

  /** An RGBA4444 pixel; `r` is the lowest nibble of the 16-bit word. */
  datatype Color = Color(r: Nibble, g: Nibble, b: Nibble, a: Nibble)

  /** The 16-bit word a colour is stored as. */
  function ToRaw(c: Color): (w: int)
    ensures 0 <= w < 0x1_0000
  {
    c.r + 16 * c.g + 256 * c.b + 4096 * c.a
  }

  /** The colour a 16-bit framebuffer word holds. */
  function FromRaw(w: int): (c: Color)
    requires 0 <= w < 0x1_0000
    ensures ToRaw(c) == w
  {
    DivDiv(w, 16, 16);
    DivDiv(w, 256, 16);
    assert w == 16 * (w / 16) + w % 16;
    assert w / 16 == 16 * (w / 256) + (w / 16) % 16;
    assert w / 256 == 16 * (w / 4096) + (w / 256) % 16;
    Color(w % 16, (w / 16) % 16, (w / 256) % 16, w / 4096)
  }

  lemma RawRoundTrip(c: Color)
    ensures FromRaw(ToRaw(c)) == c
  {
    var w := ToRaw(c);
    DivMod(w, 16, c.g + 16 * c.b + 256 * c.a, c.r);
    DivMod(w / 16, 16, c.b + 16 * c.a, c.g);
    DivMod(w, 256, c.b + 16 * c.a, c.r + 16 * c.g);
    DivMod(w / 256, 16, c.a, c.b);
    DivMod(w, 4096, c.a, c.r + 16 * c.g + 256 * c.b);
  }

  // ---------------------------------------------------------------------
  // Blending

  /** Storing an `int` in a `u8` keeps its low eight bits. */
  function U8(v: int): Byte {
    v % 256
  }

  /** Storing a value in a 4-bit colour field keeps its low four bits. */
  function Nib(v: int): Nibble {
    v % 16
  }

  /**
   * One channel blended towards `dst` by `alpha`, computed in `int`
   * (an arithmetic right shift by 4 is a floor division by 16) and
   * returned as a `u8`.
   */
  function BlendColor(src: Byte, dst: Byte, alpha: Byte): Byte {
    U8((dst * alpha + src * (15 - alpha)) / 16)
  }

  /**
   * For 4-bit inputs the blend is the weighted average of the two channels
   * scaled by 15/16 and rounded down: it fits in four bits, never exceeds
   * the larger input and never falls a whole step below 15/16 of the smaller.
   */
  lemma BlendColorBounds(src: Nibble, dst: Nibble, alpha: Nibble)
    ensures var r := BlendColor(src, dst, alpha);
      && r <= 14
      && 16 * r <= dst * alpha + src * (15 - alpha) < 16 * r + 16
      && r <= (if src < dst then dst else src)
      && 15 * (if src < dst then src else dst) < 16 * r + 16
  {
    var v := dst * alpha + src * (15 - alpha);
    WeightedBetween(src, dst, alpha);
    DivMod(v, 16, v / 16, v % 16);
    DivMod(v / 16, 256, 0, v / 16);
  }

  /** A weighted sum with weights `alpha` and `15 - alpha` lies between 15 times each input. */
  lemma WeightedBetween(src: Nibble, dst: Nibble, alpha: Nibble)
    ensures var v := dst * alpha + src * (15 - alpha);
      var lo := if src < dst then src else dst;
      var hi := if src < dst then dst else src;
      15 * lo <= v <= 15 * hi && 0 <= v <= 225
  {
    var lo := if src < dst then src else dst;
    var hi := if src < dst then dst else src;
    var d := hi - lo;
    var w := if src < dst then alpha else 15 - alpha;
    assert dst * alpha + src * (15 - alpha) == lo * 15 + d * w;
    MulBounds(d, w);
    MulBounds(15, lo);
    MulBounds(15, hi);
  }

  /** Fully opaque and fully transparent blends pick one side, scaled by 15/16. */
  lemma BlendColorEnds(src: Nibble, dst: Nibble)
    ensures BlendColor(src, dst, 15) == dst * 15 / 16
    ensures BlendColor(src, dst, 0) == src * 15 / 16
  {
  }

  /**
   * `setPixelBlendSrc`'s colour: each channel is blended from the pixel
   * already in the framebuffer towards `c` by `c.a`; the alpha of the
   * framebuffer pixel is kept.
   */
  function BlendSrc(fb: Color, c: Color): Color {
    Color(Nib(BlendColor(fb.r, c.r, c.a)), Nib(BlendColor(fb.g, c.g, c.a)),
          Nib(BlendColor(fb.b, c.b, c.a)), fb.a)
  }

  /** `setPixelBlendDst`'s alpha: `a + fbA * (15 - a) / 15` in `int`, stored in four bits. */
  function BlendAlpha(fbA: Nibble, a: Nibble): Nibble {
    Nib(a + fbA * (15 - a) / 15)
  }

  /** `setPixelBlendDst`'s colour: the channels as in `BlendSrc`, alpha combined. */
  function BlendDst(fb: Color, c: Color): Color {
    Color(Nib(BlendColor(fb.r, c.r, c.a)), Nib(BlendColor(fb.g, c.g, c.a)),
          Nib(BlendColor(fb.b, c.b, c.a)), BlendAlpha(fb.a, c.a))
  }

  /** Storing a blended channel in a 4-bit field loses nothing. */
  lemma BlendChannelFits(src: Nibble, dst: Nibble, alpha: Nibble)
    ensures Nib(BlendColor(src, dst, alpha)) == BlendColor(src, dst, alpha)
  {
    BlendColorBounds(src, dst, alpha);
  }

  /**
   * The source blend keeps the framebuffer's alpha and the destination blend
   * differ from it only in alpha; both write the same channels.
   */
  lemma BlendSrcDstChannels(fb: Color, c: Color)
    ensures BlendSrc(fb, c).a == fb.a
    ensures BlendDst(fb, c) == BlendSrc(fb, c).(a := BlendAlpha(fb.a, c.a))
  {
  }

  /**
   * The combined alpha never wraps: it is at least either input, at most 15,
   * an opaque colour or an opaque framebuffer pixel gives 15, and a fully
   * transparent colour keeps the framebuffer's alpha.
   */
  lemma {:induction false} BlendAlphaBounds(fbA: Nibble, a: Nibble)
    ensures var r := BlendAlpha(fbA, a);
      && a <= r && fbA <= r
      && (a == 15 ==> r == 15)
      && (fbA == 15 ==> r == 15)
      && (a == 0 ==> r == fbA)
  {
    var x := fbA * (15 - a);
    AlphaQuot(fbA, a, x);
    AlphaFits(fbA, a, x);
  }

  /** With those bounds the combined alpha fits in four bits, so storing it loses nothing. */
  lemma AlphaFits(fbA: Nibble, a: Nibble, x: int)
    requires x == fbA * (15 - a) && fbA - a <= x / 15 <= 15 - a
    ensures BlendAlpha(fbA, a) == a + x / 15
  {
    assert 0 <= a + x / 15 < 16;
  }

  /** The bounds on `fbA * (15 - a) / 15` that keep the combined alpha within a nibble. */
  lemma AlphaQuot(fbA: Nibble, a: Nibble, x: int)
    requires x == fbA * (15 - a)
    ensures fbA - a <= x / 15 <= 15 - a
    ensures fbA == 15 ==> x / 15 == 15 - a
    ensures a == 0 ==> x / 15 == fbA
  {
    assert x <= 15 * (15 - a);
    assert 15 * (fbA - a) <= x by {
      assert x - 15 * (fbA - a) == a * (15 - fbA);
      assert 0 <= a * (15 - fbA);
    }
    if fbA == 15 {
      assert x == 15 * (15 - a);
    }
    if a == 0 {
      assert x == 15 * fbA;
    }
  }

  // ---------------------------------------------------------------------
  // Block-linear layout

  /** C++ integer division, which truncates toward zero. */
  function TDiv(a: int, b: int): int
    requires b > 0
  {
    if a >= 0 then a / b else -((-a) / b)
  }

  /** C++ `%`, whose result takes the sign of the dividend. */
  function TMod(a: int, b: int): int
    requires b > 0
  {
    a - b * TDiv(a, b)
  }

  /**
   * The swizzled offset of pixel (x, y) in `int`: `y & 127` is the
   * two's-complement low seven bits, i.e. `y` modulo 128; the other
   * divisions and remainders are C++'s.
   */
  function Swizzle(x: int, y: int): int {
    ((y % 128) / 16 + TDiv(x, 32) * 8 + TDiv(y, 128) * 112) * 512
    + TDiv(TMod(y, 16), 8) * 256
    + TDiv(TMod(x, 32), 16) * 128
    + TDiv(TMod(y, 8), 2) * 32
    + TDiv(TMod(x, 16), 8) * 16
    + TMod(y, 2) * 8
    + TMod(x, 8)
  }

  /** Euclidean division is fixed by any quotient and remainder in range. */
  lemma DivMod(n: int, k: int, q: int, r: int)
    requires 0 < k && 0 <= r < k && n == q * k + r
    ensures n / k == q && n % k == r
  {
    var q', r' := n / k, n % k;
    assert n == q' * k + r';
    if q > q' {
      assert (q - q') * k == r' - r;
      MulAtLeast(q - q', k);
    } else if q < q' {
      assert (q' - q) * k == r - r';
      MulAtLeast(q' - q, k);
    }
  }

  lemma MulAtLeast(a: int, k: int)
    requires a >= 1 && k > 0
    ensures a * k >= k
  {
    if a > 1 {
      MulAtLeast(a - 1, k);
      assert a * k == (a - 1) * k + k;
    }
  }

  /** Reducing modulo a multiple of `b` first does not change the remainder modulo `b`. */
  lemma ModMod(x: nat, a: int, b: int, m: int)
    requires 0 < b && 0 < m && a == b * m
    ensures x % a % b == x % b
  {
    var r := x % a;
    assert x == (x / a) * a + r;
    assert r == (r / b) * b + r % b;
    DivMod(x, b, m * (x / a) + r / b, r % b);
  }

  /** C++ division and remainder agree with Euclid's on non-negative operands. */
  lemma TruncNonNeg(a: nat, b: int)
    requires b > 0
    ensures TDiv(a, b) == a / b && TMod(a, b) == a % b
  {
  }

  /** C++ division of a small negative number truncates to 0 and leaves it as the remainder. */
  lemma TruncSmallNeg(a: int, b: int)
    requires -b < a < 0
    ensures TDiv(a, b) == 0 && TMod(a, b) == a
  {
    DivMod(-a, b, 0, -a);
  }

  /**
   * The part of the offset that places a pixel inside its 32x16 tile, as the
   * source computes it for non-negative coordinates.
   */
  function InTile(x: nat, y: nat): nat {
    ((y % 16) / 8) * 256 + ((x % 32) / 16) * 128 + ((y % 8) / 2) * 32
    + ((x % 16) / 8) * 16 + (y % 2) * 8 + x % 8
  }

  /** The tile a pixel with non-negative coordinates lies in. */
  function TileOf(x: nat, y: nat): nat {
    (y % 128) / 16 + (x / 32) * 8 + (y / 128) * 112
  }

  /** The tile column and row recovered from a position inside a tile. */
  function TileX(o: nat): nat {
    o % 8 + ((o / 16) % 2) * 8 + ((o / 128) % 2) * 16
  }

  function TileY(o: nat): nat {
    (o / 8) % 2 + ((o / 32) % 4) * 2 + (o / 256) * 8
  }

  /** A position inside a tile from its six bit fields. */
  function Pack(x0: nat, x1: nat, x2: nat, y0: nat, y1: nat, y2: nat): nat {
    y2 * 256 + x2 * 128 + y1 * 32 + x1 * 16 + y0 * 8 + x0
  }

  lemma Unpack(x0: nat, x1: nat, x2: nat, y0: nat, y1: nat, y2: nat)
    requires x0 < 8 && x1 < 2 && x2 < 2 && y0 < 2 && y1 < 4 && y2 < 2
    ensures var o := Pack(x0, x1, x2, y0, y1, y2);
      o < 512 && TileX(o) == x0 + 8 * x1 + 16 * x2 && TileY(o) == y0 + 2 * y1 + 8 * y2
  {
    var o := Pack(x0, x1, x2, y0, y1, y2);
    DivMod(o, 8, y2 * 32 + x2 * 16 + y1 * 4 + x1 * 2 + y0, x0);
    DivMod(o / 8, 2, y2 * 16 + x2 * 8 + y1 * 2 + x1, y0);
    DivMod(o, 16, y2 * 16 + x2 * 8 + y1 * 2 + x1, y0 * 8 + x0);
    DivMod(o / 16, 2, y2 * 8 + x2 * 4 + y1, x1);
    DivMod(o, 32, y2 * 8 + x2 * 4 + y1, x1 * 16 + y0 * 8 + x0);
    DivMod(o / 32, 4, y2 * 2 + x2, y1);
    DivMod(o, 128, y2 * 2 + x2, y1 * 32 + x1 * 16 + y0 * 8 + x0);
    DivMod(o / 128, 2, y2, x2);
    DivMod(o, 256, y2, x2 * 128 + y1 * 32 + x1 * 16 + y0 * 8 + x0);
  }

  /** The three bit fields of a tile column that the offset uses. */
  lemma XDigits(x: nat)
    requires x < 32
    ensures x == x % 8 + 8 * ((x % 16) / 8) + 16 * ((x % 32) / 16)
    ensures (x % 16) / 8 < 2 && (x % 32) / 16 < 2
  {
    DivMod(x, 32, 0, x);
    assert x == (x / 16) * 16 + x % 16;
    assert x % 16 == ((x % 16) / 8) * 8 + (x % 16) % 8;
    DivMod(x, 8, 2 * (x / 16) + (x % 16) / 8, (x % 16) % 8);
  }

  lemma XFromDigits(x0: nat, x1: nat, x2: nat)
    requires x0 < 8 && x1 < 2 && x2 < 2
    ensures var x := x0 + 8 * x1 + 16 * x2;
      x % 8 == x0 && (x % 16) / 8 == x1 && (x % 32) / 16 == x2
  {
    var x := x0 + 8 * x1 + 16 * x2;
    DivMod(x, 8, x1 + 2 * x2, x0);
    DivMod(x, 16, x2, x0 + 8 * x1);
    DivMod(x % 16, 8, x1, x0);
    DivMod(x, 32, 0, x);
  }

  /** The three bit fields of a tile row that the offset uses. */
  lemma YDigits(y: nat)
    requires y < 16
    ensures y == y % 2 + 2 * ((y % 8) / 2) + 8 * ((y % 16) / 8)
    ensures (y % 8) / 2 < 4 && (y % 16) / 8 < 2
  {
    DivMod(y, 16, 0, y);
    assert y == (y / 8) * 8 + y % 8;
    assert y % 8 == ((y % 8) / 2) * 2 + (y % 8) % 2;
    DivMod(y, 2, 4 * (y / 8) + (y % 8) / 2, (y % 8) % 2);
  }

  lemma YFromDigits(y0: nat, y1: nat, y2: nat)
    requires y0 < 2 && y1 < 4 && y2 < 2
    ensures var y := y0 + 2 * y1 + 8 * y2;
      y % 2 == y0 && (y % 8) / 2 == y1 && (y % 16) / 8 == y2
  {
    var y := y0 + 2 * y1 + 8 * y2;
    DivMod(y, 2, y1 + 4 * y2, y0);
    DivMod(y, 8, y2, y0 + 2 * y1);
    DivMod(y % 8, 2, y1, y0);
    DivMod(y, 16, 0, y);
  }

  /** Dividing twice is dividing by the product. */
  lemma DivDiv(n: nat, a: int, b: int)
    requires a > 0 && b > 0
    ensures n / a / b == n / (a * b)
  {
    var q, r := n / a, n % a;
    var q2, r2 := q / b, q % b;
    assert n == q * a + r;
    assert q == q2 * b + r2;
    assert q * a == a * (q2 * b) + a * r2;
    assert a * (q2 * b) == q2 * (a * b);
    MulMono(a, r2, b - 1);
    assert a * (b - 1) + a == a * b;
    DivMod(n, a * b, q2, a * r2 + r);
  }

  /** Products of small naturals stay between 0 and the product of the bounds. */
  lemma MulBounds(a: nat, b: nat)
    requires a < 16 && b < 16
    ensures 0 <= a * b <= 15 * b && a * b <= a * 15
  {
  }

  lemma MulMono(a: int, u: int, v: int)
    requires a > 0 && u <= v
    ensures a * u <= a * v
  {
    if u < v {
      MulAtLeast(v - u, a);
      assert a * v - a * u == (v - u) * a;
    }
  }

  /** The six bit fields of a position inside a tile. */
  lemma PositionDigits(o: nat)
    requires o < 512
    ensures o % 8 < 8 && (o / 16) % 2 < 2 && (o / 128) % 2 < 2
    ensures (o / 8) % 2 < 2 && (o / 32) % 4 < 4 && o / 256 < 2
    ensures o == Pack(o % 8, (o / 16) % 2, (o / 128) % 2, (o / 8) % 2, (o / 32) % 4, o / 256)
  {
    DivDiv(o, 8, 2);
    DivDiv(o, 16, 2);
    DivDiv(o, 32, 4);
    DivDiv(o, 128, 2);
    assert o == 8 * (o / 8) + o % 8;
    assert o / 8 == 2 * (o / 16) + (o / 8) % 2;
    assert o / 16 == 2 * (o / 32) + (o / 16) % 2;
    assert o / 32 == 4 * (o / 128) + (o / 32) % 4;
    assert o / 128 == 2 * (o / 256) + (o / 128) % 2;
    DivMod(o, 256, o / 256, o % 256);
  }

  /** A pixel read back from its position inside the tile. */
  lemma TileForward(x: nat, y: nat)
    requires x < 32 && y < 16
    ensures InTile(x, y) < 512
    ensures TileX(InTile(x, y)) == x && TileY(InTile(x, y)) == y
  {
    XDigits(x);
    YDigits(y);
    var x0, x1, x2 := x % 8, (x % 16) / 8, (x % 32) / 16;
    var y0, y1, y2 := y % 2, (y % 8) / 2, (y % 16) / 8;
    assert InTile(x, y) == Pack(x0, x1, x2, y0, y1, y2);
    Unpack(x0, x1, x2, y0, y1, y2);
  }

  /** A position inside the tile read back from the pixel it names. */
  lemma TileBackward(o: nat)
    requires o < 512
    ensures TileX(o) < 32 && TileY(o) < 16
    ensures InTile(TileX(o), TileY(o)) == o
  {
    PositionDigits(o);
    var x0, x1, x2 := o % 8, (o / 16) % 2, (o / 128) % 2;
    var y0, y1, y2 := (o / 8) % 2, (o / 32) % 4, o / 256;
    Unpack(x0, x1, x2, y0, y1, y2);
    var x, y := x0 + 8 * x1 + 16 * x2, y0 + 2 * y1 + 8 * y2;
    XFromDigits(x0, x1, x2);
    YFromDigits(y0, y1, y2);
    assert InTile(x, y) == Pack(x % 8, (x % 16) / 8, (x % 32) / 16, y % 2, (y % 8) / 2, (y % 16) / 8);
  }

  /** Inside a tile each of the 512 pixels has its own position, and every position is used. */
  lemma TileBijection(x: nat, y: nat, o: nat)
    requires x < 32 && y < 16 && o < 512
    ensures InTile(x, y) < 512
    ensures TileX(InTile(x, y)) == x && TileY(InTile(x, y)) == y
    ensures TileX(o) < 32 && TileY(o) < 16
    ensures InTile(TileX(o), TileY(o)) == o
  {
    TileForward(x, y);
    TileBackward(o);
  }

  /** For non-negative coordinates C++'s operators are Euclid's and the offset splits by tile. */
  lemma SwizzleNonNeg(x: nat, y: nat)
    ensures Swizzle(x, y) == TileOf(x, y) * 512 + InTile(x, y)
  {
    TruncNonNeg(x, 32);
    TruncNonNeg(y, 128);
    TruncNonNeg(y, 16);
    TruncNonNeg(y % 16, 8);
    TruncNonNeg(x % 32, 16);
    TruncNonNeg(y, 8);
    TruncNonNeg(y % 8, 2);
    TruncNonNeg(x, 16);
    TruncNonNeg(x % 16, 8);
    TruncNonNeg(y, 2);
    TruncNonNeg(x, 8);
  }

  /** The position inside the tile depends on `x % 32` and `y % 16` alone. */
  lemma InTileMods(x: nat, y: nat)
    ensures InTile(x, y) == InTile(x % 32, y % 16)
  {
    ModMod(x, 32, 16, 2);
    ModMod(x, 32, 8, 4);
    ModMod(y, 16, 8, 2);
    ModMod(y, 16, 2, 8);
    DivMod(x % 32, 32, 0, x % 32);
    DivMod(y % 16, 16, 0, y % 16);
  }

  /**
   * For non-negative coordinates the offset is the pixel's tile times 512
   * plus its position inside the tile, and that position depends on
   * `x % 32` and `y % 16` alone.
   */
  lemma SwizzleSplit(x: nat, y: nat)
    ensures Swizzle(x, y) == TileOf(x, y) * 512 + InTile(x, y)
    ensures InTile(x, y) == InTile(x % 32, y % 16) < 512
    ensures Swizzle(x, y) % 512 == InTile(x % 32, y % 16)
  {
    SwizzleNonNeg(x, y);
    InTileMods(x, y);
    TileForward(x % 32, y % 16);
    DivMod(Swizzle(x, y), 512, TileOf(x, y), InTile(x, y));
  }

  /** Every on-screen pixel lands inside the framebuffer. */
  lemma OnScreenInBuffer(x: int, y: int)
    requires 0 <= x < FB_WIDTH && 0 <= y < FB_HEIGHT
    ensures 0 <= Swizzle(x, y) < FB_CELLS
  {
    SwizzleSplit(x, y);
    var t := TileOf(x, y);
    assert (y % 128) / 16 <= 7 && x / 32 <= 13 && y / 128 <= 5;
    assert t <= 671;
    assert t * 512 <= 671 * 512;
  }

  /** Distinct on-screen pixels land in distinct cells. */
  lemma OnScreenInjective(x1: int, y1: int, x2: int, y2: int)
    requires 0 <= x1 < FB_WIDTH && 0 <= y1 < FB_HEIGHT
    requires 0 <= x2 < FB_WIDTH && 0 <= y2 < FB_HEIGHT
    requires Swizzle(x1, y1) == Swizzle(x2, y2)
    ensures x1 == x2 && y1 == y2
  {
    SwizzleSplit(x1, y1);
    SwizzleSplit(x2, y2);
    DivMod(Swizzle(x1, y1), 512, TileOf(x1, y1), InTile(x1, y1));
    DivMod(Swizzle(x2, y2), 512, TileOf(x2, y2), InTile(x2, y2));
    InTileInjective(x1 % 32, y1 % 16, x2 % 32, y2 % 16);
    TileOfInjective(x1, y1, x2, y2);
  }

  lemma InTileInjective(x1: nat, y1: nat, x2: nat, y2: nat)
    requires x1 < 32 && y1 < 16 && x2 < 32 && y2 < 16
    requires InTile(x1, y1) == InTile(x2, y2)
    ensures x1 == x2 && y1 == y2
  {
    TileForward(x1, y1);
    TileForward(x2, y2);
  }

  /** On the screen a pixel is fixed by its tile and its coordinates inside the tile. */
  lemma TileOfInjective(x1: nat, y1: nat, x2: nat, y2: nat)
    requires x1 < FB_WIDTH && x2 < FB_WIDTH
    requires TileOf(x1, y1) == TileOf(x2, y2) && x1 % 32 == x2 % 32 && y1 % 16 == y2 % 16
    ensures x1 == x2 && y1 == y2
  {
    TileDigits(x1, y1);
    TileDigits(x2, y2);
  }

  lemma TileDigits(x: nat, y: nat)
    requires x < FB_WIDTH
    ensures var t := TileOf(x, y);
      t % 8 == (y % 128) / 16 && (t / 8) % 14 == x / 32 && t / 8 / 14 == y / 128
    ensures x == 32 * (x / 32) + x % 32
    ensures y == 128 * (y / 128) + 16 * ((y % 128) / 16) + y % 16
  {
    var t := TileOf(x, y);
    DivMod(t, 8, x / 32 + 14 * (y / 128), (y % 128) / 16);
    DivMod(t / 8, 14, y / 128, x / 32);
    ModMod(y, 128, 16, 8);
    assert y % 128 == ((y % 128) / 16) * 16 + (y % 128) % 16;
  }

  // ---------------------------------------------------------------------
  // Scissoring

  datatype Scissor = Scissor(x: int, y: int, w: int, h: int)

  predicate Inside(s: Scissor, x: int, y: int) {
    s.x <= x < s.x + s.w && s.y <= y < s.y + s.h
  }

  /**
   * `getPixelOffset` as written: `UINT32_MAX` when the top scissor rectangle
   * excludes the point, otherwise the swizzled offset converted to `u32`.
   * Only the top of the stack is consulted; an empty stack clips nothing.
   */
  function PixelOffset(stack: seq<Scissor>, x: int, y: int): (r: int)
    ensures 0 <= r < TWO_32
    ensures |stack| > 0 && !Inside(stack[|stack| - 1], x, y) ==> r == UINT32_MAX
    ensures (|stack| == 0 || Inside(stack[|stack| - 1], x, y)) && 0 <= x < FB_WIDTH && 0 <= y < FB_HEIGHT
            ==> r == Swizzle(x, y) < FB_CELLS
  {
    if |stack| > 0 && !Inside(stack[|stack| - 1], x, y) then UINT32_MAX
    else if 0 <= x < FB_WIDTH && 0 <= y < FB_HEIGHT then
      OnScreenInBuffer(x, y);
      DivMod(Swizzle(x, y), TWO_32, 0, Swizzle(x, y));
      Swizzle(x, y) % TWO_32
    else Swizzle(x, y) % TWO_32
  }

  /**
   * A point just left of the screen is not rejected: with no scissor
   * active its offset wraps to just below `UINT32_MAX`, far outside the
   * framebuffer (only x = -1 happens to hit the rejection value), and the
   * blending writers read and write that cell.
   */
  lemma NegativeOffsetEscapes(stack: seq<Scissor>, x: int, y: int)
    requires stack == [] && -8 < x < 0 && y == 0
    ensures PixelOffset(stack, x, y) == TWO_32 + x >= FB_CELLS
    ensures x != -1 ==> PixelOffset(stack, x, y) != UINT32_MAX
  {
    var v := Swizzle(x, y);
    SwizzleLeftOfScreen(x, y);
    DivMod(v, TWO_32, -1, TWO_32 + v);
    assert PixelOffset(stack, x, y) == v % TWO_32;
  }

  /**
   * A point just above the screen is not rejected either, and its offset
   * stays inside the framebuffer: with no scissor active, (0, -1) lands on
   * the cell of the on-screen pixel (24, 111), which the blending writers
   * then overwrite.
   */
  lemma AboveScreenHitsPixel()
    ensures 0 <= 24 < FB_WIDTH && 0 <= 111 < FB_HEIGHT
    ensures PixelOffset([], 0, -1) == Swizzle(24, 111) == 3576
  {
    CellAboveScreen();
    DivMod(3576, TWO_32, 0, 3576);
    CellOfPixel24And111();
  }

  /** The offset of (0, -1) before its conversion to `u32`. */
  lemma CellAboveScreen()
    ensures PixelOffset([], 0, -1) == Swizzle(0, -1) % TWO_32 && Swizzle(0, -1) == 3576
  {
    SwizzleParts(0, -1);
    RowJustAbove(-1);
    ColumnsOfFirstByte(0);
  }

  /** The on-screen pixel (24, 111) is stored in cell 3576. */
  lemma CellOfPixel24And111()
    ensures Swizzle(24, 111) == 3576
  {
    SwizzleParts(24, 111);
    Row111();
    Column24();
  }

  /** The row terms of a pixel's offset. */
  function RowPart(y: int): int {
    ((y % 128) / 16 + TDiv(y, 128) * 112) * 512 + TDiv(TMod(y, 16), 8) * 256 + TDiv(TMod(y, 8), 2) * 32 + TMod(y, 2) * 8
  }

  /** The column terms of a pixel's offset. */
  function ColumnPart(x: int): int {
    TDiv(x, 32) * 8 * 512 + TDiv(TMod(x, 32), 16) * 128 + TDiv(TMod(x, 16), 8) * 16 + TMod(x, 8)
  }

  lemma SwizzleParts(x: int, y: int)
    ensures Swizzle(x, y) == RowPart(y) + ColumnPart(x)
  {
  }

  lemma RowJustAbove(y: int)
    requires -2 < y < 0
    ensures RowPart(y) == 3576
  {
    RowAboveBand(y);
    RowAboveRest(y);
    RowPartOf(y, 7, 0, 0, 0, -1);
  }

  lemma RowAboveBand(y: int)
    requires -2 < y < 0
    ensures (y % 128) / 16 == 7
  {
    DivMod(y, 128, -1, 128 + y);
    DivMod(128 + y, 16, 7, 15);
  }

  lemma RowAboveRest(y: int)
    requires -2 < y < 0
    ensures TDiv(y, 128) == 0 && TDiv(TMod(y, 16), 8) == 0 && TDiv(TMod(y, 8), 2) == 0 && TMod(y, 2) == -1
  {
    TruncSmallNeg(y, 128);
    TruncSmallNeg(y, 16);
    TruncSmallNeg(y, 8);
    TruncSmallNeg(y, 2);
  }

  lemma RowPartOf(y: int, a: int, b: int, c: int, d: int, e: int)
    requires (y % 128) / 16 == a && TDiv(y, 128) == b && TDiv(TMod(y, 16), 8) == c && TDiv(TMod(y, 8), 2) == d
    requires TMod(y, 2) == e
    ensures RowPart(y) == (a + b * 112) * 512 + c * 256 + d * 32 + e * 8
  {
  }

  lemma ColumnsOfFirstByte(x: nat)
    requires x < 8
    ensures ColumnPart(x) == x
  {
    DivMod(x, 32, 0, x);
    DivMod(x, 16, 0, x);
    DivMod(x, 8, 0, x);
  }

  lemma Row111()
    ensures RowPart(111) == 3432
  {
    assert 111 % 128 == 111 && 111 / 16 == 6;
    assert TDiv(111, 128) == 0 && TMod(111, 16) == 15 && TMod(111, 8) == 7;
    assert TDiv(15, 8) == 1 && TDiv(7, 2) == 3 && TMod(111, 2) == 1;
  }

  lemma Column24()
    ensures ColumnPart(24) == 144
  {
    ColumnNonNeg(24);
  }

  /** For a non-negative column C++'s operators are Euclid's. */
  lemma ColumnNonNeg(x: nat)
    ensures ColumnPart(x) == (x / 32) * 4096 + ((x % 32) / 16) * 128 + ((x % 16) / 8) * 16 + x % 8
  {
    TruncNonNeg(x, 32);
    TruncNonNeg(x, 16);
    TruncNonNeg(x, 8);
    TruncNonNeg(x % 32, 16);
    TruncNonNeg(x % 16, 8);
  }

  lemma SwizzleLeftOfScreen(x: int, y: nat)
    requires -8 < x < 0 && y < 2
    ensures Swizzle(x, y) == 8 * y + x
  {
    TruncSmallNeg(x, 32);
    TruncSmallNeg(x, 16);
    TruncSmallNeg(x, 8);
    DivMod(y, 128, 0, y);
    DivMod(y, 16, 0, y);
    DivMod(y, 8, 0, y);
    DivMod(y, 2, 0, y);
    TruncNonNeg(y, 128);
    TruncNonNeg(y, 16);
    TruncNonNeg(y, 8);
    TruncNonNeg(y, 2);
    assert TMod(y, 16) == y && TMod(y, 8) == y && TDiv(y, 128) == 0 && TMod(y, 2) == y;
    DivMod(0, 16, 0, 0);
    DivMod(0, 2, 0, 0);
  }

  /**
   * The offset the blending writers use: as `PixelOffset`, but points
   * off the screen are rejected like points outside the scissor rectangle.
   */
  function ClippedOffset(stack: seq<Scissor>, x: int, y: int): (r: int)
    ensures r == UINT32_MAX || 0 <= r < FB_CELLS
    ensures r != UINT32_MAX <==>
      0 <= x < FB_WIDTH && 0 <= y < FB_HEIGHT && (|stack| == 0 || Inside(stack[|stack| - 1], x, y))
    ensures 0 <= x < FB_WIDTH && 0 <= y < FB_HEIGHT ==> r == PixelOffset(stack, x, y)
  {
    if 0 <= x < FB_WIDTH && 0 <= y < FB_HEIGHT then PixelOffset(stack, x, y) else UINT32_MAX
  }

  /** The renderer's framebuffer and scissor stack. */
  class Renderer {
    const framebuffer: array<Color>
    var scissors: seq<Scissor>

    ghost predicate Valid()
      reads this
    {
      framebuffer.Length == FB_CELLS
    }

    constructor (fb: array<Color>)
      requires fb.Length == FB_CELLS
      ensures Valid() && framebuffer == fb && scissors == []
    {
      framebuffer := fb;
      scissors := [];
    }

    /** Push one rectangle; later drawing is clipped to it. */
    method EnableScissoring(x: int, y: int, w: int, h: int)
      modifies this
      ensures scissors == old(scissors) + [Scissor(x, y, w, h)]
    {
      scissors := scissors + [Scissor(x, y, w, h)];
    }

    /** Pop the top rectangle; an empty stack is left alone. */
    method DisableScissoring()
      modifies this
      ensures |old(scissors)| > 0 ==> scissors == old(scissors)[..|old(scissors)| - 1]
      ensures |old(scissors)| == 0 ==> scissors == old(scissors)
    {
      if |scissors| > 0 {
        scissors := scissors[..|scissors| - 1];
      }
    }

    /**
     * Write one cell, only when the point is left of and above the screen's
     * far edges and the offset is not the rejection value. The caller must
     * give an offset inside the buffer whenever the write happens.
     */
    method SetPixel(x: int, y: int, color: Color, offset: int)
      requires Valid()
      requires x < FB_WIDTH && y < FB_HEIGHT && offset != UINT32_MAX ==> 0 <= offset < FB_CELLS
      modifies framebuffer
      ensures x < FB_WIDTH && y < FB_HEIGHT && offset != UINT32_MAX ==>
        framebuffer[..] == old(framebuffer[..])[offset := color]
      ensures !(x < FB_WIDTH && y < FB_HEIGHT && offset != UINT32_MAX) ==>
        framebuffer[..] == old(framebuffer[..])
    {
      if x < FB_WIDTH && y < FB_HEIGHT && offset != UINT32_MAX {
        framebuffer[offset] := color;
      }
    }

    /**
     * `setPixelBlendSrc` as written: blend `color` into the cell
     * `getPixelOffset` gives, keeping the cell's alpha. The cell is read
     * whenever the offset is not the rejection value, so the caller must
     * keep such an offset inside the buffer; `setPixel` then writes it
     * unless the point is at or beyond the screen's far edges.
     */
    method SetPixelBlendSrc(x: int, y: int, color: Color)
      requires Valid()
      requires PixelOffset(scissors, x, y) != UINT32_MAX ==> PixelOffset(scissors, x, y) < FB_CELLS
      modifies framebuffer
      ensures var off := PixelOffset(scissors, x, y);
        off != UINT32_MAX && x < FB_WIDTH && y < FB_HEIGHT ==>
          framebuffer[..] == old(framebuffer[..])[off := BlendSrc(old(framebuffer[off]), color)]
      ensures var off := PixelOffset(scissors, x, y);
        !(off != UINT32_MAX && x < FB_WIDTH && y < FB_HEIGHT) ==> framebuffer[..] == old(framebuffer[..])
    {
      var offset := PixelOffset(scissors, x, y);
      if offset == UINT32_MAX {
        return;
      }
      var end := BlendSrc(framebuffer[offset], color);
      SetPixel(x, y, end, offset);
    }

    /** `setPixelBlendDst` as written: as `SetPixelBlendSrc`, but the alphas are combined. */
    method SetPixelBlendDst(x: int, y: int, color: Color)
      requires Valid()
      requires PixelOffset(scissors, x, y) != UINT32_MAX ==> PixelOffset(scissors, x, y) < FB_CELLS
      modifies framebuffer
      ensures var off := PixelOffset(scissors, x, y);
        off != UINT32_MAX && x < FB_WIDTH && y < FB_HEIGHT ==>
          framebuffer[..] == old(framebuffer[..])[off := BlendDst(old(framebuffer[off]), color)]
      ensures var off := PixelOffset(scissors, x, y);
        !(off != UINT32_MAX && x < FB_WIDTH && y < FB_HEIGHT) ==> framebuffer[..] == old(framebuffer[..])
    {
      var offset := PixelOffset(scissors, x, y);
      if offset == UINT32_MAX {
        return;
      }
      var end := BlendDst(framebuffer[offset], color);
      SetPixel(x, y, end, offset);
    }

    /**
     * The blending writer as evidently intended: a point off the screen or
     * outside the scissor rectangle leaves the framebuffer alone, and any
     * other point blends into its own cell, so no caller can reach a cell
     * outside the buffer or another pixel's cell.
     */
    method SetPixelBlendSrcClipped(x: int, y: int, color: Color)
      requires Valid()
      modifies framebuffer
      ensures var off := ClippedOffset(scissors, x, y);
        off == UINT32_MAX ==> framebuffer[..] == old(framebuffer[..])
      ensures var off := ClippedOffset(scissors, x, y);
        off != UINT32_MAX ==> framebuffer[..] == old(framebuffer[..])[off := BlendSrc(old(framebuffer[off]), color)]
    {
      var offset := ClippedOffset(scissors, x, y);
      if offset == UINT32_MAX {
        return;
      }
      var end := BlendSrc(framebuffer[offset], color);
      SetPixel(x, y, end, offset);
    }

    /** `SetPixelBlendDst` as evidently intended, clipped like `SetPixelBlendSrcClipped`. */
    method SetPixelBlendDstClipped(x: int, y: int, color: Color)
      requires Valid()
      modifies framebuffer
      ensures var off := ClippedOffset(scissors, x, y);
        off == UINT32_MAX ==> framebuffer[..] == old(framebuffer[..])
      ensures var off := ClippedOffset(scissors, x, y);
        off != UINT32_MAX ==> framebuffer[..] == old(framebuffer[..])[off := BlendDst(old(framebuffer[off]), color)]
    {
      var offset := ClippedOffset(scissors, x, y);
      if offset == UINT32_MAX {
        return;
      }
      var end := BlendDst(framebuffer[offset], color);
      SetPixel(x, y, end, offset);
    }
  }
}
