// The YUV 4:2:0 to RGB framebuffer blit, and the error bound of its fixed-point colour conversion
// against the forward transform that authors the test clip.

module Blit {
  import opened Bytes

  datatype Pixel = Pixel(r: byte, g: byte, b: byte, x: byte)

  const BLACK := Pixel(0, 0, 0, 255)

  function Clamp8(v: int): (c: byte)
    ensures c == v || (v < 0 && c == 0) || (v > 255 && c == 255)
  {
    if v < 0 then 0 else if v > 255 then 255 else v
  }

  // Full-range BT.601 in 16.16 fixed point; d and e are the chroma samples less 128. The original's right shift
  // of a negative number rounds down, like these divisions.

  function Red(y: int, e: int): int {
    y + (91881 * e) / 65536
  }

  function Green(y: int, d: int, e: int): int {
    y - (22554 * d + 46802 * e) / 65536
  }

  function Blue(y: int, d: int): int {
    y + (116130 * d) / 65536
  }

  function Convert(y: byte, u: byte, v: byte): Pixel {
    var d, e := u as int - 128, v as int - 128;
    Pixel(Clamp8(Red(y, e)), Clamp8(Green(y, d, e)), Clamp8(Blue(y, d)), 255)
  }

  /** Half of a number, rounded toward zero as in C. */
  function Half(n: int): int {
    if n >= 0 then n / 2 else -((-n) / 2)
  }

  // ----- framebuffer geometry

  /** Start of a row, as repeated addition. */
  function Row(dy: nat, pitch: nat): nat {
    if dy == 0 then 0 else Row(dy - 1, pitch) + pitch
  }

  lemma {:induction false} RowIsProduct(dy: nat, pitch: nat)
    ensures Row(dy, pitch) == dy * pitch
  {
    if dy > 0 {
      RowIsProduct(dy - 1, pitch);
    }
  }

  lemma {:induction false} RowsApart(a: nat, b: nat, pitch: nat)
    requires a < b
    ensures Row(a, pitch) + pitch <= Row(b, pitch)
    decreases b - a
  {
    if a + 1 < b {
      RowsApart(a, b - 1, pitch);
    }
  }

  /** A framebuffer of fbh rows of fbw pixels; each row but the last may end in padding. */
  predicate Fits(len: nat, fbw: nat, fbh: nat, pitch: nat) {
    4 * fbw <= pitch && (fbh > 0 ==> Row(fbh - 1, pitch) + 4 * fbw <= len)
  }

  /** Offset of a pixel. */
  function At(dy: nat, dx: nat, pitch: nat): nat {
    Row(dy, pitch) + 4 * dx
  }

  lemma PixelInBounds(len: nat, fbw: nat, fbh: nat, pitch: nat, dy: nat, dx: nat)
    requires Fits(len, fbw, fbh, pitch) && dy < fbh && dx < fbw
    ensures At(dy, dx, pitch) + 4 <= len
  {
    if dy < fbh - 1 {
      RowsApart(dy, fbh - 1, pitch);
    }
  }

  lemma PixelsApart(fbw: nat, pitch: nat, dy: nat, dx: nat, r: nat, c: nat)
    requires 4 * fbw <= pitch && dx < fbw && c < fbw && (dy != r || dx != c)
    ensures At(dy, dx, pitch) + 4 <= At(r, c, pitch) || At(r, c, pitch) + 4 <= At(dy, dx, pitch)
  {
    if dy < r {
      RowsApart(dy, r, pitch);
    } else if r < dy {
      RowsApart(r, dy, pitch);
    }
  }

  /** The bytes of a pixel. */
  function Get(fb: seq<byte>, pitch: nat, dy: nat, dx: nat): Pixel
    requires At(dy, dx, pitch) + 4 <= |fb|
  {
    var p := At(dy, dx, pitch);
    Pixel(fb[p], fb[p + 1], fb[p + 2], fb[p + 3])
  }

  predicate Visible(dy: int, dx: int, fbw: nat, fbh: nat) {
    0 <= dy < fbh && 0 <= dx < fbw
  }

  /** An offset that belongs to no visible pixel: row padding, or what follows the last row. */
  ghost predicate Padding(o: int, fbw: nat, fbh: nat, pitch: nat) {
    forall dy, dx :: Visible(dy, dx, fbw, fbh) ==> !(At(dy, dx, pitch) <= o < At(dy, dx, pitch) + 4)
  }

  /** A pixel of the framebuffer has this colour. */
  ghost predicate ShowsAt(fb: seq<byte>, fbw: nat, fbh: nat, pitch: nat, dy: int, dx: int, px: Pixel)
    requires Fits(|fb|, fbw, fbh, pitch) && Visible(dy, dx, fbw, fbh)
  {
    PixelInBounds(|fb|, fbw, fbh, pitch, dy, dx);
    Get(fb, pitch, dy, dx) == px
  }

  /** Stores the four bytes of one pixel. */
  method SetPixel(fb: array<byte>, fbw: nat, fbh: nat, pitch: nat, dy: nat, dx: nat, px: Pixel)
    requires Fits(fb.Length, fbw, fbh, pitch) && Visible(dy, dx, fbw, fbh)
    modifies fb
    ensures ShowsAt(fb[..], fbw, fbh, pitch, dy, dx, px)
    ensures forall r, c, q :: Visible(r, c, fbw, fbh) && (r != dy || c != dx) ==>
              (ShowsAt(fb[..], fbw, fbh, pitch, r, c, q) <==> ShowsAt(old(fb[..]), fbw, fbh, pitch, r, c, q))
    ensures forall o :: 0 <= o < fb.Length && Padding(o, fbw, fbh, pitch) ==> fb[o] == old(fb[o])
  {
    PixelInBounds(fb.Length, fbw, fbh, pitch, dy, dx);
    RowIsProduct(dy, pitch);
    var p := dy * pitch + dx * 4;
    fb[p] := px.r;
    fb[p + 1] := px.g;
    fb[p + 2] := px.b;
    fb[p + 3] := px.x;
    forall r, c, q | Visible(r, c, fbw, fbh) && (r != dy || c != dx)
      ensures ShowsAt(fb[..], fbw, fbh, pitch, r, c, q) <==> ShowsAt(old(fb[..]), fbw, fbh, pitch, r, c, q)
    {
      PixelInBounds(fb.Length, fbw, fbh, pitch, r, c);
      PixelsApart(fbw, pitch, dy, dx, r, c);
    }
  }

  ghost predicate SamePadding(fb: seq<byte>, before: seq<byte>, fbw: nat, fbh: nat, pitch: nat) {
    |fb| == |before| && forall o :: 0 <= o < |fb| && Padding(o, fbw, fbh, pitch) ==> fb[o] == before[o]
  }

  // ----- the image

  /** Three planes with their strides; chroma has half the resolution in both directions. */
  datatype Image = Image(y: seq<byte>, yls: nat, u: seq<byte>, uls: nat, v: seq<byte>, vls: nat, iw: nat, ih: nat)

  function Sample(plane: seq<byte>, stride: nat, y: nat, x: nat): byte {
    var i := y * stride + x;
    if i < |plane| then plane[i] else 0
  }

  /** The three samples of an image pixel are in their planes. */
  predicate HasPixel(img: Image, iy: nat, ix: nat) {
    && iy * img.yls + ix < |img.y|
    && (iy / 2) * img.uls + ix / 2 < |img.u|
    && (iy / 2) * img.vls + ix / 2 < |img.v|
  }

  /** Every image pixel that falls on the framebuffer has its samples; clipped ones need none. */
  ghost predicate ImageOk(img: Image, fbw: nat, fbh: nat) {
    forall iy: nat, ix: nat ::
      iy < img.ih && ix < img.iw && Visible(Half(fbh - img.ih) + iy, Half(fbw - img.iw) + ix, fbw, fbh) ==>
        HasPixel(img, iy, ix)
  }

  function ImagePixel(img: Image, iy: nat, ix: nat): Pixel {
    Convert(Sample(img.y, img.yls, iy, ix),
            Sample(img.u, img.uls, iy / 2, ix / 2),
            Sample(img.v, img.vls, iy / 2, ix / 2))
  }

  /** Framebuffer pixel (dy, dx) of the centred image on black, when only image pixels before (iy, ix) are drawn. */
  function Drawn(img: Image, fbw: nat, fbh: nat, iy: int, ix: int, dy: int, dx: int): Pixel {
    var y, x := dy - Half(fbh - img.ih), dx - Half(fbw - img.iw);
    if 0 <= y < img.ih && 0 <= x < img.iw && (y < iy || (y == iy && x < ix)) then ImagePixel(img, y, x) else BLACK
  }

  /** What the framebuffer finally shows at a pixel: the centred, clipped image, black elsewhere. */
  function FramePixel(img: Image, fbw: nat, fbh: nat, dy: int, dx: int): Pixel {
    var y, x := dy - Half(fbh - img.ih), dx - Half(fbw - img.iw);
    if 0 <= y < img.ih && 0 <= x < img.iw then ImagePixel(img, y, x) else BLACK
  }

  /** Drawing one more image pixel changes the framebuffer pixel it falls on and no other. */
  lemma DrawnStep(img: Image, fbw: nat, fbh: nat, iy: nat, ix: nat, dy: int, dx: int)
    requires iy < img.ih && ix < img.iw
    ensures Drawn(img, fbw, fbh, iy, ix + 1, dy, dx) ==
              if dy == Half(fbh - img.ih) + iy && dx == Half(fbw - img.iw) + ix then ImagePixel(img, iy, ix)
              else Drawn(img, fbw, fbh, iy, ix, dy, dx)
  {
  }

  lemma DrawnRow(img: Image, fbw: nat, fbh: nat, iy: nat, ix: int, dy: int, dx: int)
    requires ix >= img.iw || dy != Half(fbh - img.ih) + iy
    ensures Drawn(img, fbw, fbh, iy + 1, 0, dy, dx) ==
              if ix >= img.iw then Drawn(img, fbw, fbh, iy, ix, dy, dx) else Drawn(img, fbw, fbh, iy, 0, dy, dx)
  {
  }

  /** The framebuffer with the image drawn up to (iy, ix). */
  ghost predicate ShowsDrawn(fb: seq<byte>, fbw: nat, fbh: nat, pitch: nat, img: Image, iy: int, ix: int)
    requires Fits(|fb|, fbw, fbh, pitch)
  {
    forall r, c :: Visible(r, c, fbw, fbh) ==> ShowsAt(fb, fbw, fbh, pitch, r, c, Drawn(img, fbw, fbh, iy, ix, r, c))
  }

  method FillBlack(fb: array<byte>, fbw: nat, fbh: nat, pitch: nat)
    requires Fits(fb.Length, fbw, fbh, pitch)
    modifies fb
    ensures forall r, c :: Visible(r, c, fbw, fbh) ==> ShowsAt(fb[..], fbw, fbh, pitch, r, c, BLACK)
    ensures SamePadding(fb[..], old(fb[..]), fbw, fbh, pitch)
  {
    for dy := 0 to fbh
      invariant forall r, c :: Visible(r, c, fbw, fbh) && r < dy ==> ShowsAt(fb[..], fbw, fbh, pitch, r, c, BLACK)
      invariant SamePadding(fb[..], old(fb[..]), fbw, fbh, pitch)
    {
      for dx := 0 to fbw
        invariant forall r, c :: Visible(r, c, fbw, fbh) && (r < dy || (r == dy && c < dx)) ==>
          ShowsAt(fb[..], fbw, fbh, pitch, r, c, BLACK)
        invariant SamePadding(fb[..], old(fb[..]), fbw, fbh, pitch)
      {
        SetPixel(fb, fbw, fbh, pitch, dy, dx, BLACK);
      }
    }
  }

  /** Draws image pixel (iy, ix) if it is visible. */
  method DrawPixel(fb: array<byte>, fbw: nat, fbh: nat, pitch: nat, img: Image, iy: nat, ix: nat)
    requires Fits(fb.Length, fbw, fbh, pitch) && ImageOk(img, fbw, fbh) && iy < img.ih && ix < img.iw
    requires ShowsDrawn(fb[..], fbw, fbh, pitch, img, iy, ix)
    modifies fb
    ensures ShowsDrawn(fb[..], fbw, fbh, pitch, img, iy, ix + 1)
    ensures SamePadding(fb[..], old(fb[..]), fbw, fbh, pitch)
  {
    var dx, dy := Half(fbw - img.iw) + ix, Half(fbh - img.ih) + iy;
    forall r, c | Visible(r, c, fbw, fbh)
      ensures Drawn(img, fbw, fbh, iy, ix + 1, r, c) ==
                if r == dy && c == dx then ImagePixel(img, iy, ix) else Drawn(img, fbw, fbh, iy, ix, r, c)
    {
      DrawnStep(img, fbw, fbh, iy, ix, r, c);
    }
    if dx < 0 || dx >= fbw || dy < 0 || dy >= fbh {
      return;
    }
    assert HasPixel(img, iy, ix);
    var px := ReadPixel(img, iy, ix);
    SetPixel(fb, fbw, fbh, pitch, dy, dx, px);
  }

  /** Draws image row iy where it is visible. */
  method DrawRow(fb: array<byte>, fbw: nat, fbh: nat, pitch: nat, img: Image, iy: nat)
    requires Fits(fb.Length, fbw, fbh, pitch) && ImageOk(img, fbw, fbh) && iy < img.ih
    requires ShowsDrawn(fb[..], fbw, fbh, pitch, img, iy, 0)
    modifies fb
    ensures ShowsDrawn(fb[..], fbw, fbh, pitch, img, iy + 1, 0)
    ensures SamePadding(fb[..], old(fb[..]), fbw, fbh, pitch)
  {
    var dy, drawn := Half(fbh - img.ih) + iy, 0;
    if 0 <= dy < fbh {
      for ix := 0 to img.iw
        invariant ShowsDrawn(fb[..], fbw, fbh, pitch, img, iy, ix)
        invariant SamePadding(fb[..], old(fb[..]), fbw, fbh, pitch)
      {
        DrawPixel(fb, fbw, fbh, pitch, img, iy, ix);
      }
      drawn := img.iw;
    }
    forall r, c | Visible(r, c, fbw, fbh)
      ensures Drawn(img, fbw, fbh, iy + 1, 0, r, c) == Drawn(img, fbw, fbh, iy, drawn, r, c)
    {
      DrawnRow(img, fbw, fbh, iy, drawn, r, c);
    }
  }

  /** Reads the three samples of one image pixel and converts them. */
  method ReadPixel(img: Image, iy: nat, ix: nat) returns (px: Pixel)
    requires HasPixel(img, iy, ix)
    ensures px == ImagePixel(img, iy, ix)
  {
    hide Convert;
    var yi, ui, vi := iy * img.yls + ix, (iy / 2) * img.uls + ix / 2, (iy / 2) * img.vls + ix / 2;
    px := Convert(img.y[yi], img.u[ui], img.v[vi]);
  }

  /** Main result about placement: for every framebuffer, pitch and image size, each visible pixel shows the centred,
      clipped, converted image or black; padding is untouched and every access is in bounds. */
  method Yuv420ToFb(fb: array<byte>, fbw: nat, fbh: nat, pitch: nat, img: Image)
    requires Fits(fb.Length, fbw, fbh, pitch) && ImageOk(img, fbw, fbh)
    modifies fb
    ensures forall r, c :: Visible(r, c, fbw, fbh) ==>
              ShowsAt(fb[..], fbw, fbh, pitch, r, c, FramePixel(img, fbw, fbh, r, c))
    ensures forall top, left :: Centred(fbh, img.ih, top) && Centred(fbw, img.iw, left) ==>
              ShowsImage(fb[..], fbw, fbh, pitch, img, top, left)
    ensures forall top, left, colours ::
              Centred(fbh, img.ih, top) && Centred(fbw, img.iw, left) && Authored(img, colours) ==>
                ShowsBlocks(fb[..], fbw, fbh, pitch, img, top, left, colours)
    ensures SamePadding(fb[..], old(fb[..]), fbw, fbh, pitch)
    ensures forall r: nat, x: nat :: 4 * fbw <= x < pitch ==> GapKept(fb[..], old(fb[..]), pitch, r, x)
  {
    Draw(fb, fbw, fbh, pitch, img);
    forall r: nat, x: nat | 4 * fbw <= x < pitch
      ensures GapKept(fb[..], old(fb[..]), pitch, r, x)
    {
      BehindRowIsPadding(fbw, fbh, pitch, r, x);
    }
    forall top, left | Centred(fbh, img.ih, top) && Centred(fbw, img.iw, left)
      ensures ShowsImage(fb[..], fbw, fbh, pitch, img, top, left)
    {
      ImageIsShown(fb[..], fbw, fbh, pitch, img, top, left);
    }
    forall top, left, colours | Centred(fbh, img.ih, top) && Centred(fbw, img.iw, left) && Authored(img, colours)
      ensures ShowsBlocks(fb[..], fbw, fbh, pitch, img, top, left, colours)
    {
      BlocksAreShown(fb[..], fbw, fbh, pitch, img, top, left, colours);
    }
  }

  /** Byte x of row r is as it was, if there is such a byte. */
  ghost predicate GapKept(fb: seq<byte>, before: seq<byte>, pitch: nat, r: nat, x: nat) {
    |fb| == |before| && (r * pitch + x < |fb| ==> fb[r * pitch + x] == before[r * pitch + x])
  }

  /** What lies behind the pixels of a row is padding. */
  lemma BehindRowIsPadding(fbw: nat, fbh: nat, pitch: nat, r: nat, x: nat)
    requires 4 * fbw <= x < pitch
    ensures Padding(r * pitch + x, fbw, fbh, pitch)
  {
    RowIsProduct(r, pitch);
    forall dy, dx | Visible(dy, dx, fbw, fbh)
      ensures !(At(dy, dx, pitch) <= r * pitch + x < At(dy, dx, pitch) + 4)
    {
      if dy < r {
        RowsApart(dy, r, pitch);
      } else if r < dy {
        RowsApart(r, dy, pitch);
      }
    }
  }

  /** The two passes. */
  method Draw(fb: array<byte>, fbw: nat, fbh: nat, pitch: nat, img: Image)
    requires Fits(fb.Length, fbw, fbh, pitch) && ImageOk(img, fbw, fbh)
    modifies fb
    ensures forall r, c :: Visible(r, c, fbw, fbh) ==>
              ShowsAt(fb[..], fbw, fbh, pitch, r, c, FramePixel(img, fbw, fbh, r, c))
    ensures SamePadding(fb[..], old(fb[..]), fbw, fbh, pitch)
  {
    FillBlack(fb, fbw, fbh, pitch);
    for iy := 0 to img.ih
      invariant ShowsDrawn(fb[..], fbw, fbh, pitch, img, iy, 0)
      invariant SamePadding(fb[..], old(fb[..]), fbw, fbh, pitch)
    {
      DrawRow(fb, fbw, fbh, pitch, img, iy);
    }
  }

  // ----- what is seen, in bytes

  /** An extent m at position at in the middle of an extent n: the margins differ by at most one, and the odd pixel is
      behind a smaller image, and cut off behind a larger one. */
  predicate Centred(n: nat, m: nat, at: int) {
    var behind := n - m - at;
    if n >= m then 0 <= behind - at <= 1 else 0 <= at - behind <= 1
  }

  /** The four bytes at o. */
  ghost predicate BytesAt(fb: seq<byte>, o: int, px: Pixel) {
    0 <= o && o + 4 <= |fb| && fb[o] == px.r && fb[o + 1] == px.g && fb[o + 2] == px.b && fb[o + 3] == px.x
  }

  /** Pixel (r, c) shows its own luma sample and the chroma samples it shares, if the image covers it, else opaque
      black. */
  ghost predicate ShowsPixel(fb: seq<byte>, pitch: nat, img: Image, top: int, left: int, r: nat, c: nat) {
    var iy, ix := r - top, c - left;
    if 0 <= iy < img.ih && 0 <= ix < img.iw then
      && HasPixel(img, iy, ix)
      && BytesAt(fb, r * pitch + 4 * c,
                 Convert(img.y[iy * img.yls + ix],
                         img.u[(iy / 2) * img.uls + ix / 2],
                         img.v[(iy / 2) * img.vls + ix / 2]))
    else BytesAt(fb, r * pitch + 4 * c, Pixel(0, 0, 0, 255))
  }

  ghost predicate ShowsImage(fb: seq<byte>, fbw: nat, fbh: nat, pitch: nat, img: Image, top: int, left: int) {
    forall r, c :: Visible(r, c, fbw, fbh) ==> ShowsPixel(fb, pitch, img, top, left, r, c)
  }

  lemma CentreIsHalf(n: nat, m: nat, at: int)
    requires Centred(n, m, at)
    ensures at == Half(n - m)
  {
  }

  lemma ImageIsShown(fb: seq<byte>, fbw: nat, fbh: nat, pitch: nat, img: Image, top: int, left: int)
    requires Fits(|fb|, fbw, fbh, pitch) && ImageOk(img, fbw, fbh)
    requires forall r, c :: Visible(r, c, fbw, fbh) ==>
               ShowsAt(fb, fbw, fbh, pitch, r, c, FramePixel(img, fbw, fbh, r, c))
    requires Centred(fbh, img.ih, top) && Centred(fbw, img.iw, left)
    ensures ShowsImage(fb, fbw, fbh, pitch, img, top, left)
  {
    hide Convert;
    CentreIsHalf(fbh, img.ih, top);
    CentreIsHalf(fbw, img.iw, left);
    forall r, c | Visible(r, c, fbw, fbh)
      ensures ShowsPixel(fb, pitch, img, top, left, r, c)
    {
      assert ShowsAt(fb, fbw, fbh, pitch, r, c, FramePixel(img, fbw, fbh, r, c));
      PixelIsShown(fb, fbw, fbh, pitch, img, top, left, r, c);
    }
  }

  lemma PixelIsShown(fb: seq<byte>, fbw: nat, fbh: nat, pitch: nat, img: Image, top: int, left: int, r: nat, c: nat)
    requires Fits(|fb|, fbw, fbh, pitch) && ImageOk(img, fbw, fbh) && Visible(r, c, fbw, fbh)
    requires ShowsAt(fb, fbw, fbh, pitch, r, c, FramePixel(img, fbw, fbh, r, c))
    requires top == Half(fbh - img.ih) && left == Half(fbw - img.iw)
    ensures ShowsPixel(fb, pitch, img, top, left, r, c)
  {
    hide Convert, Half;
    PixelInBounds(|fb|, fbw, fbh, pitch, r, c);
    RowIsProduct(r, pitch);
    var iy, ix := r - top, c - left;
    if 0 <= iy < img.ih && 0 <= ix < img.iw {
      assert HasPixel(img, iy, ix);
    }
  }

  // ----- colour round trip

  /** num / den rounded to the nearest integer, ties to even. */
  function Round(num: int, den: nat): (q: int)
    requires den > 0
  {
    var q, rem := num / den, num % den;
    if 2 * rem < den || (2 * rem == den && q % 2 == 0) then q else q + 1
  }

  /** The forward transform, in exact decimal coefficients. */
  function RgbToYuv(r: byte, g: byte, b: byte): (byte, byte, byte) {
    var r, g, b := r as int, g as int, b as int;
    (Clamp8(Round(299 * r + 587 * g + 114 * b, 1000)),
     Clamp8(Round(-168736 * r - 331264 * g + 500000 * b + 128000000, 1000000)),
     Clamp8(Round(500000 * r - 418688 * g - 81312 * b + 128000000, 1000000)))
  }

  predicate Near(a: int, b: int, d: nat) {
    -(d as int) <= a - b <= d
  }

  lemma RoundError(num: int, den: nat)
    requires den == 1000 || den == 1000000
    ensures -(den as int) <= 2 * (den * Round(num, den) - num) <= den
  {
  }

  /** Rounded and clamped luma and chroma are within half a level of the exact ones. */
  lemma ForwardError(r: byte, g: byte, b: byte)
    ensures var (y, u, v) := RgbToYuv(r, g, b);
            && Near(1000 * y as int, 299 * r as int + 587 * g as int + 114 * b as int, 500)
            && Near(1000000 * u as int, -168736 * r as int - 331264 * g as int + 500000 * b as int + 128000000, 500000)
            && Near(1000000 * v as int, 500000 * r as int - 418688 * g as int - 81312 * b as int + 128000000, 500000)
  {
    var r, g, b := r as int, g as int, b as int;
    RoundError(299 * r + 587 * g + 114 * b, 1000);
    RoundError(-168736 * r - 331264 * g + 500000 * b + 128000000, 1000000);
    RoundError(500000 * r - 418688 * g - 81312 * b + 128000000, 1000000);
  }

  lemma ClampNear(v: int, c: byte, d: nat)
    requires Near(v, c as int, d)
    ensures Near(Clamp8(v) as int, c as int, d)
  {
  }

  predicate CloseTo(p: Pixel, r: byte, g: byte, b: byte) {
    Near(p.r as int, r as int, 2) && Near(p.g as int, g as int, 2) && Near(p.b as int, b as int, 2) && p.x == 255
  }

  /** Main result about colour: authoring a colour and converting it back changes no channel by more than 2 levels. */
  lemma ColourRoundTrip(r: byte, g: byte, b: byte)
    ensures CloseTo(Shown(r, g, b), r, g, b)
  {
    RedRoundTrip(r, g, b);
    GreenRoundTrip(r, g, b);
    BlueRoundTrip(r, g, b);
  }

  /** The colour that a clip authored in (r, g, b) is shown in. */
  function Shown(r: byte, g: byte, b: byte): Pixel {
    Convert(RgbToYuv(r, g, b).0, RgbToYuv(r, g, b).1, RgbToYuv(r, g, b).2)
  }

  lemma RedRoundTrip(r: byte, g: byte, b: byte)
    ensures Near(Shown(r, g, b).r as int, r as int, 2)
  {
    hide RgbToYuv, Red, Green, Blue, Clamp8;
    var (y, u, v) := RgbToYuv(r, g, b);
    ForwardError(r, g, b);
    RedBack(r, g, b, y, v as int - 128);
    ClampNear(Red(y, v as int - 128), r, 2);
  }

  lemma GreenRoundTrip(r: byte, g: byte, b: byte)
    ensures Near(Shown(r, g, b).g as int, g as int, 2)
  {
    hide RgbToYuv, Red, Green, Blue, Clamp8;
    var (y, u, v) := RgbToYuv(r, g, b);
    ForwardError(r, g, b);
    GreenBack(r, g, b, y, u as int - 128, v as int - 128);
    ClampNear(Green(y, u as int - 128, v as int - 128), g, 2);
  }

  lemma BlueRoundTrip(r: byte, g: byte, b: byte)
    ensures Near(Shown(r, g, b).b as int, b as int, 2)
  {
    hide RgbToYuv, Red, Green, Blue, Clamp8;
    var (y, u, v) := RgbToYuv(r, g, b);
    ForwardError(r, g, b);
    BlueBack(r, g, b, y, u as int - 128);
    ClampNear(Blue(y, u as int - 128), b, 2);
  }

  lemma RedBack(r: int, g: int, b: int, y: int, e: int)
    requires 0 <= r < 256 && 0 <= g < 256 && 0 <= b < 256
    requires Near(1000 * y, 299 * r + 587 * g + 114 * b, 500)
    requires Near(1000000 * e, 500000 * r - 418688 * g - 81312 * b, 500000)
    ensures Near(Red(y, e), r, 2)
  {
  }

  lemma GreenBack(r: int, g: int, b: int, y: int, d: int, e: int)
    requires 0 <= r < 256 && 0 <= g < 256 && 0 <= b < 256
    requires Near(1000 * y, 299 * r + 587 * g + 114 * b, 500)
    requires Near(1000000 * d, -168736 * r - 331264 * g + 500000 * b, 500000)
    requires Near(1000000 * e, 500000 * r - 418688 * g - 81312 * b, 500000)
    ensures Near(Green(y, d, e), g, 2)
  {
  }

  lemma BlueBack(r: int, g: int, b: int, y: int, d: int)
    requires 0 <= r < 256 && 0 <= g < 256 && 0 <= b < 256
    requires Near(1000 * y, 299 * r + 587 * g + 114 * b, 500)
    requires Near(1000000 * d, -168736 * r - 331264 * g + 500000 * b, 500000)
    ensures Near(Blue(y, d), b, 2)
  {
  }

  /** The planes of a solid frame: one byte repeated. */
  function Solid(c: byte, n: nat): (plane: seq<byte>)
    ensures |plane| == n && forall i :: 0 <= i < n ==> plane[i] == c
  {
    seq(n, i => c)
  }

  ghost predicate IsSolid(img: Image, y: byte, u: byte, v: byte) {
    && (forall iy: nat, ix: nat :: iy < img.ih && ix < img.iw ==> HasPixel(img, iy, ix))
    && img.y == Solid(y, |img.y|) && img.u == Solid(u, |img.u|) && img.v == Solid(v, |img.v|)
  }

  lemma SolidPixel(img: Image, y: byte, u: byte, v: byte, iy: nat, ix: nat)
    requires IsSolid(img, y, u, v) && iy < img.ih && ix < img.iw
    ensures ImagePixel(img, iy, ix) == Convert(y, u, v)
  {
    hide Convert;
    assert HasPixel(img, iy, ix);
  }

  /** Every pixel of a solid frame shows its colour, or black beside the image. */
  lemma SolidFrame(img: Image, y: byte, u: byte, v: byte, fbw: nat, fbh: nat, dy: int, dx: int)
    requires IsSolid(img, y, u, v)
    ensures var iy, ix := dy - Half(fbh - img.ih), dx - Half(fbw - img.iw);
            FramePixel(img, fbw, fbh, dy, dx) ==
              if 0 <= iy < img.ih && 0 <= ix < img.iw then Convert(y, u, v) else BLACK
  {
    var iy, ix := dy - Half(fbh - img.ih), dx - Half(fbw - img.iw);
    if 0 <= iy < img.ih && 0 <= ix < img.iw {
      SolidPixel(img, y, u, v, iy, ix);
    }
  }

  /** A solid colour of any size, authored as planes and blitted, is shown within 2 levels wherever the image is
      visible. */
  lemma SolidFrameIsShown(r: byte, g: byte, b: byte, img: Image, fbw: nat, fbh: nat, dy: int, dx: int)
    requires IsSolid(img, RgbToYuv(r, g, b).0, RgbToYuv(r, g, b).1, RgbToYuv(r, g, b).2)
    ensures var iy, ix, p := dy - Half(fbh - img.ih), dx - Half(fbw - img.iw), FramePixel(img, fbw, fbh, dy, dx);
            if 0 <= iy < img.ih && 0 <= ix < img.iw then CloseTo(p, r, g, b) else p == BLACK
  {
    ColourRoundTrip(r, g, b);
    SolidFrame(img, RgbToYuv(r, g, b).0, RgbToYuv(r, g, b).1, RgbToYuv(r, g, b).2, fbw, fbh, dy, dx);
  }

  type Colour = (byte, byte, byte)

  /** An image authored from colours: each one fills its block of two by two luma samples and its chroma samples. */
  ghost predicate Authored(img: Image, colours: seq<seq<Colour>>) {
    forall iy: nat, ix: nat :: iy < img.ih && ix < img.iw ==> AuthoredAt(img, colours, iy, ix)
  }

  ghost predicate AuthoredAt(img: Image, colours: seq<seq<Colour>>, iy: nat, ix: nat) {
    && iy / 2 < |colours| && ix / 2 < |colours[iy / 2]| && HasPixel(img, iy, ix)
    && var (r, g, b) := colours[iy / 2][ix / 2];
       RgbToYuv(r, g, b) == (img.y[iy * img.yls + ix], img.u[(iy / 2) * img.uls + ix / 2],
                             img.v[(iy / 2) * img.vls + ix / 2])
  }

  ghost predicate BytesNear(fb: seq<byte>, o: int, c: Colour) {
    && 0 <= o && o + 4 <= |fb|
    && -2 <= fb[o] as int - c.0 as int <= 2
    && -2 <= fb[o + 1] as int - c.1 as int <= 2
    && -2 <= fb[o + 2] as int - c.2 as int <= 2
    && fb[o + 3] == 255
  }

  /** Every visible pixel of the image is within 2 levels of the colour of its own block, in each channel. */
  ghost predicate ShowsBlocks(fb: seq<byte>, fbw: nat, fbh: nat, pitch: nat, img: Image, top: int, left: int,
                              colours: seq<seq<Colour>>) {
    forall iy: nat, ix: nat :: iy < img.ih && ix < img.iw ==>
      ShowsBlock(fb, fbw, fbh, pitch, top, left, colours, iy, ix)
  }

  ghost predicate ShowsBlock(fb: seq<byte>, fbw: nat, fbh: nat, pitch: nat, top: int, left: int,
                             colours: seq<seq<Colour>>, iy: nat, ix: nat) {
    Visible(top + iy, left + ix, fbw, fbh) ==>
      && iy / 2 < |colours| && ix / 2 < |colours[iy / 2]|
      && BytesNear(fb, (top + iy) * pitch + 4 * (left + ix), colours[iy / 2][ix / 2])
  }

  /** Main result about whole pictures: what is authored block by block is shown block by block. */
  lemma BlocksAreShown(fb: seq<byte>, fbw: nat, fbh: nat, pitch: nat, img: Image, top: int, left: int,
                       colours: seq<seq<Colour>>)
    requires ShowsImage(fb, fbw, fbh, pitch, img, top, left) && Authored(img, colours)
    ensures ShowsBlocks(fb, fbw, fbh, pitch, img, top, left, colours)
  {
    hide Convert, RgbToYuv;
    forall iy: nat, ix: nat | iy < img.ih && ix < img.iw
      ensures ShowsBlock(fb, fbw, fbh, pitch, top, left, colours, iy, ix)
    {
      assert AuthoredAt(img, colours, iy, ix);
      if Visible(top + iy, left + ix, fbw, fbh) {
        assert ShowsPixel(fb, pitch, img, top, left, top + iy, left + ix);
        BlockIsShown(fb, pitch, img, top, left, colours, iy, ix);
      }
    }
  }

  lemma BlockIsShown(fb: seq<byte>, pitch: nat, img: Image, top: int, left: int, colours: seq<seq<Colour>>,
                     iy: nat, ix: nat)
    requires iy < img.ih && ix < img.iw && 0 <= top + iy && 0 <= left + ix
    requires AuthoredAt(img, colours, iy, ix) && ShowsPixel(fb, pitch, img, top, left, top + iy, left + ix)
    ensures BytesNear(fb, (top + iy) * pitch + 4 * (left + ix), colours[iy / 2][ix / 2])
  {
    hide Convert, RgbToYuv;
    var (r, g, b) := colours[iy / 2][ix / 2];
    ColourRoundTrip(r, g, b);
  }
}
