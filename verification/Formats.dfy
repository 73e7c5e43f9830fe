// surf_put and surf_get of kernel/drivers/gfx.c at all four colour depths, byte by
// byte: what a pixel of each format keeps of an XRGB colour.

module Formats {
  import opened Gfx
  import opened Words

  /** The bytes surf_put stores for a colour. */
  function Stored(bypp: nat, c: u32): (r: seq<byte>)
    requires bypp > 0
    ensures |r| == Min(bypp, 4)
  {
    if bypp >= 4 then [c % 256, c / 256 % 256, c / 0x1_0000 % 256, c / 0x100_0000]
    else if bypp == 3 then [c % 256, c / 256 % 256, c / 0x1_0000 % 256]
    else if bypp == 2 then WordBytes(Rgb565(c))
    else [c % 256]
  }

  /** The top 5, 6 and 5 bits of red, green and blue. */
  function Rgb565(c: u32): (v: nat)
    ensures v < 0x1_0000
  {
    c / 0x8_0000 % 32 * 2048 + c / 1024 % 64 * 32 + c / 8 % 32
  }

  function WordBytes(v: nat): seq<byte>
    requires v < 0x1_0000
  {
    [v % 256, v / 256]
  }

  /** The colour surf_get reads. */
  function Colour(bypp: nat, p: seq<byte>): (c: nat)
    requires bypp > 0 && |p| == Min(bypp, 4)
  {
    if bypp >= 3 then (p[0] as int) + 256 * (p[1] as int) + 0x1_0000 * (p[2] as int)
    else if bypp == 2 then Expanded((p[0] as int) + 256 * (p[1] as int))
    else p[0]
  }

  /** A 5- or 6-bit level spread over 0 to 255. */
  function Level(v: nat, top: nat): nat
    requires top > 0
  {
    v * 255 / top
  }

  function Expanded(v: nat): nat {
    Level(v / 2048 % 32, 31) * 0x1_0000 + Level(v / 32 % 64, 63) * 256 + Level(v % 32, 31)
  }

  function Red(c: nat): nat { c / 0x1_0000 % 256 }

  function Green(c: nat): nat { c / 256 % 256 }

  function Blue(c: nat): nat { c % 256 }

  /** What a pixel shows that a colour was put into. */
  function Shown(bypp: nat, c: u32): nat
    requires bypp > 0
  {
    Colour(bypp, Stored(bypp, c))
  }

  /** Level 31 of 31 is 255, and level v lies in the same eighth as the colours it stands for. */
  lemma LevelFive(v: nat)
    requires v < 32
    ensures 8 * v <= Level(v, 31) < 8 * v + 8
  {
  }

  lemma LevelSix(v: nat)
    requires v < 64
    ensures 4 * v <= Level(v, 63) < 4 * v + 4
  {
  }

  // ----- What is kept -------------------------------------------------------------------------

  /** The three channels of a colour and the rest. */
  lemma Channels(c: nat)
    ensures c == c / 0x100_0000 * 0x100_0000 + Red(c) * 0x1_0000 + Green(c) * 256 + Blue(c)
    ensures c % 0x100_0000 == Red(c) * 0x1_0000 + Green(c) * 256 + Blue(c)
  {
    assert c / 256 / 256 == c / 0x1_0000 && c / 0x1_0000 / 256 == c / 0x100_0000;
  }

  lemma Made(r: nat, g: nat, b: nat)
    requires r < 256 && g < 256 && b < 256
    ensures var c := r * 0x1_0000 + g * 256 + b; c < 0x100_0000 && Red(c) == r && Green(c) == g && Blue(c) == b
  {
    var c := r * 0x1_0000 + g * 256 + b;
    assert c / 256 == r * 256 + g;
    assert c / 0x1_0000 == r;
  }

  lemma Bits565(c: u32)
    ensures Rgb565(c) == Red(c) / 8 * 2048 + Green(c) / 4 * 32 + Blue(c) / 8
  {
    assert c / 0x1_0000 / 8 == c / 0x8_0000;
    assert c / 256 / 4 == c / 1024;
    TopFive(c / 0x1_0000);
    TopSix(c / 256);
    TopFive(c);
  }

  // The top bits of a byte are the low bits of the shifted word.

  lemma TopFive(x: nat)
    ensures x / 8 % 32 == x % 256 / 8
  {
    var q, s := x / 256, x % 256 / 8;
    DivExactly(x, 8, 32 * q + s);
    DivExactly(32 * q + s, 32, q);
  }

  lemma TopSix(x: nat)
    ensures x / 4 % 64 == x % 256 / 4
  {
    var q, s := x / 256, x % 256 / 4;
    DivExactly(x, 4, 64 * q + s);
    DivExactly(64 * q + s, 64, q);
  }

  lemma Fields(r: nat, g: nat, b: nat)
    requires r < 32 && g < 64 && b < 32
    ensures var v := r * 2048 + g * 32 + b;
      v < 0x1_0000 && v / 2048 % 32 == r && v / 32 % 64 == g && v % 32 == b
  {
    var v := r * 2048 + g * 32 + b;
    assert v / 32 == r * 64 + g;
    assert v / 2048 == r;
  }

  lemma Expansion(r: nat, g: nat, b: nat)
    requires r < 32 && g < 64 && b < 32
    ensures var e := Expanded(r * 2048 + g * 32 + b);
      e < 0x100_0000 && Red(e) == Level(r, 31) && Green(e) == Level(g, 63) && Blue(e) == Level(b, 31)
  {
    hide Level;
    Fields(r, g, b);
    LevelFive(r);
    LevelSix(g);
    LevelFive(b);
    Made(Level(r, 31), Level(g, 63), Level(b, 31));
  }

  lemma WordBack(v: nat)
    requires v < 0x1_0000
    ensures |WordBytes(v)| == 2 && (WordBytes(v)[0] as int) + 256 * (WordBytes(v)[1] as int) == v
  {
  }

  /** At 32 and 24 bits the colour comes back, at 8 bits its low byte, at 16 bits each
      channel to within its lost low bits. */
  lemma ShownIs(bypp: nat, c: u32)
    requires bypp > 0
    ensures bypp >= 3 ==> Shown(bypp, c) == c % 0x100_0000
    ensures bypp == 1 ==> Shown(bypp, c) == c % 256
    ensures bypp == 2 ==>
      var s := Shown(bypp, c);
      && Red(s) / 8 == Red(c) / 8 && Green(s) / 4 == Green(c) / 4 && Blue(s) / 8 == Blue(c) / 8
      && Abs(Red(s) - Red(c)) <= 7 && Abs(Green(s) - Green(c)) <= 3 && Abs(Blue(s) - Blue(c)) <= 7
  {
    Channels(c);
    if bypp == 2 { Shown565(c); }
  }

  lemma Shown565(c: u32)
    ensures var s := Shown(2, c);
      && s < 0x100_0000 && Red(s) / 8 == Red(c) / 8 && Green(s) / 4 == Green(c) / 4 && Blue(s) / 8 == Blue(c) / 8
  {
    hide Level, Expanded, WordBytes;
    var r, g, b := Red(c) / 8, Green(c) / 4, Blue(c) / 8;
    Bits565(c);
    WordBack(Rgb565(c));
    Expansion(r, g, b);
    LevelFive(r);
    LevelSix(g);
    LevelFive(b);
  }

  /** Putting back what a pixel shows changes nothing more: the first put has lost all
      that its format loses. */
  lemma Settles(bypp: nat, c: u32)
    requires bypp > 0
    ensures Shown(bypp, c) < U32 && Shown(bypp, Shown(bypp, c)) == Shown(bypp, c)
    ensures bypp < 4 ==> Stored(bypp, Shown(bypp, c)) == Stored(bypp, c)
  {
    hide Level, Expanded, Red, Green, Blue;
    ShownIs(bypp, c);
    if bypp == 2 {
      Shown565(c);
      Bits565(c);
      Bits565(Shown(2, c));
    } else if bypp >= 3 {
      ShownIs(bypp, c % 0x100_0000);
      LowBytes(c);
    } else {
      ShownIs(1, c % 256);
    }
  }

  lemma LowBytes(c: u32)
    ensures var d := c % 0x100_0000;
      && d % 0x100_0000 == d && d % 256 == c % 256
      && d / 256 % 256 == c / 256 % 256 && d / 0x1_0000 % 256 == c / 0x1_0000 % 256
  {
    Channels(c);
    Made(Red(c), Green(c), Blue(c));
  }

  // ----- The buffer -------------------------------------------------------------------------------

  /** A surface of any format. */
  class Bytes {
    const w: nat
    const h: nat
    const pitch: nat
    const bypp: nat
    const pixels: array<byte>

    ghost predicate Valid() {
      0 < bypp && w * bypp <= pitch && h * pitch <= pixels.Length && Int32(w) && Int32(h)
    }

    constructor (w: nat, h: nat, pitch: nat, bypp: nat, pixels: array<byte>)
      requires 0 < bypp && w * bypp <= pitch && h * pitch <= pixels.Length && Int32(w) && Int32(h)
      ensures Valid() && this.w == w && this.h == h && this.pitch == pitch && this.bypp == bypp && this.pixels == pixels
    {
      this.w, this.h, this.pitch, this.bypp, this.pixels := w, h, pitch, bypp, pixels;
    }

    predicate OnSurface(x: int, y: int) {
      0 <= x < w && 0 <= y < h
    }

    /** Where a pixel's bytes begin; its cell lies in the buffer. */
    function At(x: int, y: int): (r: nat)
      requires Valid() && OnSurface(x, y)
      ensures r + bypp <= pixels.Length
    {
      CellInside(x, y, w, h, pitch, bypp);
      y * pitch + x * bypp
    }

    /** What surf_get returns. */
    function Pixel(x: int, y: int): nat
      requires Valid()
      reads pixels
    {
      if OnSurface(x, y) then Colour(bypp, pixels[At(x, y)..At(x, y) + Min(bypp, 4)]) else 0
    }

    lemma CellsApart(x: int, y: int, x': int, y': int)
      requires Valid() && OnSurface(x, y) && OnSurface(x', y') && (x, y) != (x', y')
      ensures At(x, y) + bypp <= At(x', y') || At(x', y') + bypp <= At(x, y)
    {
      CellInside(x, y, w, h, pitch, bypp);
      CellInside(x', y', w, h, pitch, bypp);
      MulGap(y, y', pitch);
      MulGap(y', y, pitch);
      MulGap(x, x', bypp);
      MulGap(x', x, bypp);
      MulGap(x, w, bypp);
      MulGap(x', w, bypp);
      assert 0 <= x * bypp && 0 <= x' * bypp;
    }

    /** surf_put: exactly one pixel changes, to what the format keeps of the colour; no
        byte outside its cell is touched. */
    method Put(x: int, y: int, c: u32)
      requires Valid()
      modifies pixels
      ensures forall i, j ::
                Pixel(i, j) == if OnSurface(x, y) && (i, j) == (x, y) then Shown(bypp, c) else old(Pixel(i, j))
      ensures forall p :: 0 <= p < pixels.Length && (OnSurface(x, y) ==> !(At(x, y) <= p < At(x, y) + bypp)) ==>
        pixels[p] == old(pixels[p])
    {
      hide Stored, Colour;
      if x < 0 || y < 0 || x >= w || y >= h { return; }
      var bytes := Stored(bypp, c);
      var at := At(x, y);
      Write(at, bytes);
      assert pixels[at..at + Min(bypp, 4)] == bytes;
      forall i, j | OnSurface(i, j) && (i, j) != (x, y)
        ensures Pixel(i, j) == old(Pixel(i, j))
      {
        CellsApart(i, j, x, y);
        assert pixels[At(i, j)..At(i, j) + Min(bypp, 4)] == old(pixels[At(i, j)..At(i, j) + Min(bypp, 4)]);
      }
    }

    method Write(at: nat, bytes: seq<byte>)
      requires at + |bytes| <= pixels.Length
      modifies pixels
      ensures forall m :: 0 <= m < |bytes| ==> pixels[at + m] == bytes[m]
      ensures forall p :: 0 <= p < pixels.Length && !(at <= p < at + |bytes|) ==> pixels[p] == old(pixels[p])
    {
      for k := 0 to |bytes|
        invariant forall m :: 0 <= m < k ==> pixels[at + m] == bytes[m]
        invariant forall p :: 0 <= p < pixels.Length && !(at <= p < at + k) ==> pixels[p] == old(pixels[p])
      {
        pixels[at + k] := bytes[k];
      }
    }

    /** surf_get. */
    method Get(x: int, y: int) returns (c: nat)
      requires Valid()
      ensures c == Pixel(x, y)
    {
      if x < 0 || y < 0 || x >= w || y >= h { return 0; }
      hide Level;
      var at := At(x, y);
      ghost var p := pixels[at..at + Min(bypp, 4)];
      if bypp >= 3 {
        c := (pixels[at] as int) + 256 * (pixels[at + 1] as int) + 0x1_0000 * (pixels[at + 2] as int);
      } else if bypp == 2 {
        var v := (pixels[at] as int) + 256 * (pixels[at + 1] as int);
        c := Level(v / 2048 % 32, 31) * 0x1_0000 + Level(v / 32 % 64, 63) * 256 + Level(v % 32, 31);
      } else {
        c := pixels[at];
      }
    }
  }

  lemma CellInside(x: int, y: int, w: int, h: int, pitch: int, bypp: int)
    requires 0 <= x < w && 0 <= y < h && 0 < bypp && w * bypp <= pitch
    ensures 0 <= y * pitch && 0 <= x * bypp && x * bypp + bypp <= pitch && y * pitch + pitch <= h * pitch
  {
    MulGap(x, w, bypp);
    MulGap(y, h, pitch);
    assert 0 <= y * pitch && 0 <= x * bypp;
  }
}
