/** The integer side of font loading (engine/src/font_manager.cpp): sizing
    the glyph atlas while the alphabet is filled, rounding the atlas to
    powers of two, blitting the glyph bitmaps into the atlas, and counting
    the characters and line breaks of a text.

    FreeType is outside the model: for each character code 0..255 the glyph
    FT_Load_Glyph gives (its bitmap width, rows and bytes), or none when
    loading fails, is an input. So is the order in which the alphabet map is
    iterated when the atlas is filled, as std::unordered_map leaves it
    unspecified. */
module FontAtlas {
  import opened Base

  /** mFont::K_MAX_ATLAS_WIDTH. */
  const MAX_ATLAS_WIDTH: nat := 2048

  // ---------------------------------------------------------------------
  // NextPowerOfTwo and MakeAtlasSizePowerOf2

  /** The first of p, 2p, 4p, ... that is at least n. */
  function PowerAtLeast(n: nat, p: nat): nat
    requires p >= 1
    decreases n - p
  {
    if p >= n then p else PowerAtLeast(n, 2 * p)
  }

  /** What NextPowerOfTwo returns: 1 for 0 and for values above 2^31, the
      least power of two at least n otherwise. */
  function NextPowerOfTwoValue(n: nat): nat
  {
    if n == 0 || n > 0x8000_0000 then 1 else PowerAtLeast(n, 1)
  }

  /** PowerAtLeast from a power of two below 2n is a power of two, at least
      n and below 2n. */
  lemma {:induction false} PowerAtLeastBounds(n: nat, p: nat, k: nat)
    requires 1 <= n && p == Pow2(k) && p < 2 * n
    ensures var r := PowerAtLeast(n, p);
            exists j :: Pow2(j) == r
    ensures n <= PowerAtLeast(n, p) < 2 * n
    decreases n - p
  {
    if p < n {
      PowerAtLeastBounds(n, 2 * p, k + 1);
    } else {
      assert Pow2(k) == PowerAtLeast(n, p);
    }
  }

  /** For 1 <= n <= 2^31, NextPowerOfTwo(n) is the least power of two that
      is at least n. */
  lemma NextPowerOfTwoIsLeast(n: nat)
    requires 1 <= n <= 0x8000_0000
    ensures IsPowerOfTwo(NextPowerOfTwoValue(n))
    ensures n <= NextPowerOfTwoValue(n)
    ensures forall k :: n <= Pow2(k) ==> NextPowerOfTwoValue(n) <= Pow2(k)
  {
    var r := NextPowerOfTwoValue(n);
    PowerAtLeastBounds(n, 1, 0);
    var j :| Pow2(j) == r;
    Pow2IsPowerOfTwo(j);
    forall k | n <= Pow2(k)
      ensures r <= Pow2(k)
    {
      if k < j {
        Pow2StrictlyMonotone(k, j);
      } else {
        Pow2Monotone(j, k);
      }
    }
  }

  /** NextPowerOfTwo(n): 1 for n == 0; otherwise doubling `power` from 1
      until it reaches n, giving up with 1 once it has reached 2^31. */
  method NextPowerOfTwo(n: nat) returns (power: nat)
    ensures power == NextPowerOfTwoValue(n)
    ensures n == 0 || n > 0x8000_0000 ==> power == 1
    ensures 1 <= n <= 0x8000_0000 ==> IsPowerOfTwo(power) && n <= power < 2 * n
  {
    if n <= 0 {
      return 1;
    }
    power := 1;
    ghost var k: nat := 0;
    Pow2Is32();
    while power < n
      invariant power == Pow2(k) && k <= 31
      invariant n <= 0x8000_0000 ==> PowerAtLeast(n, power) == PowerAtLeast(n, 1)
      decreases n - power
    {
      if power >= 0x8000_0000 {
        return 1;
      }
      Pow2Order(k, 31);
      power := 2 * power;
      k := k + 1;
    }
    Pow2Monotone(k, 31);
    NextPowerOfTwoIsLeast(n);
    PowerAtLeastBounds(n, 1, 0);
  }

  /** MakeAtlasSizePowerOf2(atlasWidth, atlasHeight): both dimensions
      replaced by NextPowerOfTwo of themselves. */
  method MakeAtlasSizePowerOf2(atlasWidth: nat, atlasHeight: nat) returns (width: nat, height: nat)
    ensures width == NextPowerOfTwoValue(atlasWidth) && height == NextPowerOfTwoValue(atlasHeight)
  {
    width := NextPowerOfTwo(atlasWidth);
    height := NextPowerOfTwo(atlasHeight);
  }

  // ---------------------------------------------------------------------
  // The pen: where the next glyph goes

  /** The running x offset, y offset and tallest glyph of the current
      row. */
  datatype Pen = Pen(x: nat, y: nat, rowHeight: nat)

  /** The pen after a glyph of the given size: x moves past the glyph and a
      one-pixel gap; once x reaches the maximum width the row ends, y moves
      below the row's tallest glyph and a gap, and the next row starts at
      x = 0. */
  function Advance(p: Pen, width: nat, height: nat): (q: Pen)
    ensures q.x < MAX_ATLAS_WIDTH || q.x == p.x + width + 1
    ensures q.x == 0 <==> p.x + width + 1 >= MAX_ATLAS_WIDTH
    ensures q.x == 0 ==> q.y == p.y + (if height > p.rowHeight then height else p.rowHeight) + 1
                         && q.rowHeight == 0
    ensures q.x != 0 ==> q.y == p.y && q.rowHeight >= height && q.rowHeight >= p.rowHeight
  {
    var x := p.x + width + 1;
    var rowHeight := if height > p.rowHeight then height else p.rowHeight;
    if x >= MAX_ATLAS_WIDTH then Pen(0, p.y + rowHeight + 1, 0) else Pen(x, p.y, rowHeight)
  }

  // ---------------------------------------------------------------------
  // FillAlphabetAndFindAtlasSize

  /** What FreeType reports for a loaded glyph: bitmap width and rows. */
  datatype GlyphSize = GlyphSize(width: nat, height: nat)

  /** The codes the alphabet skips: line feed, space and tab. */
  predicate Skipped(c: nat)
  {
    c == '\n' as nat || c == ' ' as nat || c == '\t' as nat
  }

  /** The state FillAlphabetAndFindAtlasSize updates: the font's glyph count
      and alphabet, the atlas width, and the pen, whose x is `xOffset`,
      whose y is `atlasHeight` and whose row height is `maxGlyphHeight`. */
  datatype Sizing = Sizing(glyphCount: nat, alphabet: map<nat, GlyphSize>, atlasWidth: nat, pen: Pen)

  /** The width check: the usize difference 2048 - (width + 1), which wraps
      to a huge value for a glyph 2048 or more pixels wide. */
  function WidthLimit(width: nat): nat
  {
    U64(MAX_ATLAS_WIDTH - (width + 1))
  }

  /** One loaded glyph: counted, inserted unless its code is present, the
      atlas widened by width + 1 while it stays below the limit, and the pen
      advanced. */
  function SizingStep(s: Sizing, c: nat, g: GlyphSize): Sizing
  {
    Sizing(s.glyphCount + 1,
           if c in s.alphabet then s.alphabet else s.alphabet[c := g],
           if s.atlasWidth < WidthLimit(g.width) then s.atlasWidth + g.width + 1 else s.atlasWidth,
           Advance(s.pen, g.width, g.height))
  }

  /** Whether code c is a glyph the loop counts. */
  predicate Loads(glyphs: seq<Option<GlyphSize>>, c: nat)
    requires c < |glyphs|
  {
    !Skipped(c) && glyphs[c].Some?
  }

  /** The state after the loop has visited codes 0..n-1. */
  function SizingAfter(glyphs: seq<Option<GlyphSize>>, n: nat, init: Sizing): Sizing
    requires n <= |glyphs|
  {
    if n == 0 then init
    else
      var s := SizingAfter(glyphs, n - 1, init);
      if Loads(glyphs, n - 1) then SizingStep(s, n - 1, glyphs[n - 1].value) else s
  }

  /** The number of codes below n that load. */
  function LoadedCount(glyphs: seq<Option<GlyphSize>>, n: nat): nat
    requires n <= |glyphs|
  {
    if n == 0 then 0 else LoadedCount(glyphs, n - 1) + (if Loads(glyphs, n - 1) then 1 else 0)
  }

  /** The final height: at least the last row's tallest glyph plus one. */
  function FinalHeight(p: Pen): (h: nat)
    ensures h >= p.rowHeight + 1 && h >= p.y
  {
    if p.y < p.rowHeight + 1 then p.y + p.rowHeight + 1 else p.y
  }

  /** The sFont fields the alphabet loop updates. */
  class Font {
    var glyphCount: nat
    var alphabet: map<nat, GlyphSize>

    /** A font as CreateFontTTF prepares it: no glyphs yet. */
    constructor ()
      ensures glyphCount == 0 && alphabet == map[]
    {
      glyphCount := 0;
      alphabet := map[];
    }
  }

  /** FillAlphabetAndFindAtlasSize(memoryPool, font, xOffset, atlasWidth,
      atlasHeight) over the glyphs FreeType loads: the loop over codes
      0..255, then the final height adjustment. */
  method FillAlphabetAndFindAtlasSize(glyphs: seq<Option<GlyphSize>>, font: Font,
                                      xOffset: nat, atlasWidth: nat, atlasHeight: nat)
      returns (newXOffset: nat, newAtlasWidth: nat, newAtlasHeight: nat)
    requires |glyphs| == 256
    modifies font
    ensures var s := SizingAfter(glyphs, 256, Sizing(old(font.glyphCount), old(font.alphabet),
                                                     atlasWidth, Pen(xOffset, atlasHeight, 0)));
            && font.glyphCount == s.glyphCount && font.alphabet == s.alphabet
            && newXOffset == s.pen.x && newAtlasWidth == s.atlasWidth
            && newAtlasHeight == FinalHeight(s.pen)
  {
    ghost var init := Sizing(font.glyphCount, font.alphabet, atlasWidth, Pen(xOffset, atlasHeight, 0));
    newXOffset, newAtlasWidth, newAtlasHeight := xOffset, atlasWidth, atlasHeight;
    var maxGlyphHeight := 0;
    var c := 0;
    while c < 256
      invariant c <= 256
      invariant SizingAfter(glyphs, c, init)
                == Sizing(font.glyphCount, font.alphabet, newAtlasWidth,
                          Pen(newXOffset, newAtlasHeight, maxGlyphHeight))
    {
      if c == '\n' as nat || c == ' ' as nat || c == '\t' as nat {
        c := c + 1;
        continue;
      }
      if glyphs[c].Some? {
        var glyph := glyphs[c].value;
        font.glyphCount := font.glyphCount + 1;
        if c !in font.alphabet {
          font.alphabet := font.alphabet[c := glyph];
        }
        newXOffset := newXOffset + glyph.width + 1;
        if newAtlasWidth < WidthLimit(glyph.width) {
          newAtlasWidth := newAtlasWidth + glyph.width + 1;
        }
        if glyph.height > maxGlyphHeight {
          maxGlyphHeight := glyph.height;
        }
        if newXOffset >= MAX_ATLAS_WIDTH {
          newAtlasHeight := newAtlasHeight + maxGlyphHeight + 1;
          newXOffset := 0;
          maxGlyphHeight := 0;
        }
      }
      c := c + 1;
    }
    if newAtlasHeight < maxGlyphHeight + 1 {
      newAtlasHeight := newAtlasHeight + maxGlyphHeight + 1;
    }
  }

  /** The glyph count grows once per code that loads, whatever the seed
      alphabet holds. */
  lemma {:induction false} GlyphCountIsLoadedCount(glyphs: seq<Option<GlyphSize>>, n: nat, init: Sizing)
    requires n <= |glyphs|
    ensures SizingAfter(glyphs, n, init).glyphCount == init.glyphCount + LoadedCount(glyphs, n)
  {
    if n > 0 {
      GlyphCountIsLoadedCount(glyphs, n - 1, init);
    }
  }

  /** From an empty alphabet, the alphabet holds exactly the codes that
      load, each with its own glyph. */
  lemma {:induction false} AlphabetIsLoadedGlyphs(glyphs: seq<Option<GlyphSize>>, n: nat, init: Sizing)
    requires n <= |glyphs| && init.alphabet == map[]
    ensures forall c: nat :: c < n && Loads(glyphs, c) ==> c in SizingAfter(glyphs, n, init).alphabet
    ensures forall c: nat :: c in SizingAfter(glyphs, n, init).alphabet ==>
              c < n && Loads(glyphs, c) && SizingAfter(glyphs, n, init).alphabet[c] == glyphs[c].value
  {
    if n > 0 {
      AlphabetIsLoadedGlyphs(glyphs, n - 1, init);
    }
  }

  /** While every glyph is narrower than 2047 pixels the atlas width stays
      below 2048 (or where it started, if it started there or above). */
  lemma {:induction false} AtlasWidthBelowMax(glyphs: seq<Option<GlyphSize>>, n: nat, init: Sizing)
    requires n <= |glyphs|
    requires forall c :: 0 <= c < n && Loads(glyphs, c) ==> glyphs[c].value.width + 1 <= MAX_ATLAS_WIDTH
    ensures var w := SizingAfter(glyphs, n, init).atlasWidth;
            w < MAX_ATLAS_WIDTH || w == init.atlasWidth
  {
    if n > 0 {
      AtlasWidthBelowMax(glyphs, n - 1, init);
    }
  }

  /** A pen that starts left of the maximum width stays left of it. */
  lemma {:induction false} XOffsetBelowMax(glyphs: seq<Option<GlyphSize>>, n: nat, init: Sizing)
    requires n <= |glyphs| && init.pen.x < MAX_ATLAS_WIDTH
    ensures SizingAfter(glyphs, n, init).pen.x < MAX_ATLAS_WIDTH
  {
    if n > 0 {
      XOffsetBelowMax(glyphs, n - 1, init);
    }
  }

  /** The width check does not bound the width for a glyph 2048 pixels
      wide: 2048 - 2049 wraps, the check passes, and the atlas becomes 2049
      pixels wide. */
  lemma WideGlyphPassesWidthCheck()
    ensures SizingStep(Sizing(0, map[], 0, Pen(0, 0, 0)), 'A' as nat, GlyphSize(2048, 1)).atlasWidth == 2049
  {
    WideGlyphLimit();
  }

  lemma WideGlyphLimit()
    ensures WidthLimit(2048) == U64_MODULUS - 1
  {
  }

  // ---------------------------------------------------------------------
  // FillAtlasWithGlyphs

  /** A glyph of the alphabet: its size and its width * height bitmap
      bytes, row by row. */
  datatype Bitmap = Bitmap(width: nat, height: nat, data: seq<byte>)

  predicate WellSized(g: Bitmap)
  {
    |g.data| == g.width * g.height
  }

  /** The atlas index of glyph pixel (x, y) for a glyph at (xo, yo):
      (xo + x) + (yo + y) * atlasWidth. */
  function PixelAt(xo: nat, yo: nat, x: nat, y: nat, atlasWidth: nat): nat
  {
    (xo + x) + (yo + y) * atlasWidth
  }

  /** Index i is one the glyph at pen p writes to, if it is inside the
      atlas. */
  ghost predicate InGlyph(i: nat, p: Pen, g: Bitmap, atlasWidth: nat)
  {
    exists x: nat, y: nat :: x < g.width && y < g.height && i == PixelAt(p.x, p.y, x, y, atlasWidth)
  }

  /** The pen before the k-th glyph of the iteration. */
  function PenBefore(gs: seq<Bitmap>, k: nat): Pen
    requires k <= |gs|
  {
    if k == 0 then Pen(0, 0, 0) else
      var p := PenBefore(gs, k - 1);
      Advance(p, gs[k - 1].width, gs[k - 1].height)
  }

  /** Index i is one some glyph before the k-th writes to. */
  ghost predicate CoveredBefore(i: nat, gs: seq<Bitmap>, k: nat, atlasWidth: nat)
    requires k <= |gs|
  {
    exists j :: 0 <= j < k && InGlyph(i, PenBefore(gs, j), gs[j], atlasWidth)
  }

  /** The atlas offsets recorded for the first k glyphs: the pen before
      each. */
  function Offsets(gs: seq<Bitmap>, k: nat): (r: seq<(nat, nat)>)
    requires k <= |gs|
    ensures |r| == k
  {
    if k == 0 then [] else Offsets(gs, k - 1) + [(PenBefore(gs, k - 1).x, PenBefore(gs, k - 1).y)]
  }

  lemma {:induction false} OffsetsArePens(gs: seq<Bitmap>, k: nat)
    requires k <= |gs|
    ensures forall j :: 0 <= j < k ==> Offsets(gs, k)[j] == (PenBefore(gs, j).x, PenBefore(gs, j).y)
  {
    if k > 0 {
      OffsetsArePens(gs, k - 1);
    }
  }

  /** The glyph byte the copy reads for pixel (x, y), guarded as the copy
      guards it by the bitmap size. */
  function GlyphPixel(g: Bitmap, x: nat, y: nat): byte
  {
    if x + y * g.width < |g.data| then g.data[x + y * g.width] else 0
  }

  /** Every pixel of a glyph is inside its bitmap. */
  lemma GlyphIndexInRange(x: nat, y: nat, width: nat, height: nat)
    requires x < width && y < height
    ensures x + y * width < width * height
  {
    assert width * height == (y + 1) * width + (height - (y + 1)) * width;
  }

  /** Two pixels of a glyph that fits in its row land on the same atlas
      index only if they are the same pixel. */
  lemma PixelAtInjective(xo: nat, yo: nat, x1: nat, y1: nat, x2: nat, y2: nat, atlasWidth: nat)
    requires xo + x1 < atlasWidth && xo + x2 < atlasWidth
    requires PixelAt(xo, yo, x1, y1, atlasWidth) == PixelAt(xo, yo, x2, y2, atlasWidth)
    ensures x1 == x2 && y1 == y2
  {
    var n := PixelAt(xo, yo, x1, y1, atlasWidth);
    DivModUnique(n, atlasWidth, yo + y1, xo + x1);
    DivModUnique(n, atlasWidth, yo + y2, xo + x2);
  }

  /** The pixels (x, y) of rows before `row`, and of row `row` before
      column `col`, hold their glyph bytes wherever they fall inside the
      atlas. */
  ghost predicate CopiedUpTo(a: seq<byte>, p: Pen, g: Bitmap, atlasWidth: nat, row: nat, col: nat)
  {
    forall x: nat, y: nat ::
      x < g.width && y < g.height && (y < row || (y == row && x < col))
      && PixelAt(p.x, p.y, x, y, atlasWidth) < |a|
      ==> a[PixelAt(p.x, p.y, x, y, atlasWidth)] == GlyphPixel(g, x, y)
  }

  /** Atlas bytes outside the given glyph are those of `before`. */
  ghost predicate SameOutside(a: seq<byte>, before: seq<byte>, p: Pen, g: Bitmap, atlasWidth: nat)
  {
    |a| == |before| && forall i :: 0 <= i < |a| && !InGlyph(i, p, g, atlasWidth) ==> a[i] == before[i]
  }

  /** One row of the copy: pixels (0, y) .. (width - 1, y), each written
      when it is inside both the bitmap and the atlas. */
  method BlitRow(atlas: array<byte>, atlasWidth: nat, atlasHeight: nat, g: Bitmap, p: Pen, y: nat,
                 ghost before: seq<byte>)
    requires atlas.Length == atlasWidth * atlasHeight && WellSized(g) && y < g.height
    requires SameOutside(atlas[..], before, p, g, atlasWidth)
    requires p.x + g.width <= atlasWidth ==> CopiedUpTo(atlas[..], p, g, atlasWidth, y, 0)
    modifies atlas
    ensures SameOutside(atlas[..], before, p, g, atlasWidth)
    ensures p.x + g.width <= atlasWidth ==> CopiedUpTo(atlas[..], p, g, atlasWidth, y + 1, 0)
  {
    var x := 0;
    while x < g.width
      invariant x <= g.width
      invariant SameOutside(atlas[..], before, p, g, atlasWidth)
      invariant p.x + g.width <= atlasWidth ==> CopiedUpTo(atlas[..], p, g, atlasWidth, y, x)
    {
      BlitPixel(atlas, atlasWidth, atlasHeight, g, p, x, y, before);
      x := x + 1;
    }
  }

  /** The loop body of the copy: pixel (x, y) written when it is inside
      both the bitmap and the atlas. */
  method BlitPixel(atlas: array<byte>, atlasWidth: nat, atlasHeight: nat, g: Bitmap, p: Pen,
                   x: nat, y: nat, ghost before: seq<byte>)
    requires atlas.Length == atlasWidth * atlasHeight && WellSized(g) && x < g.width && y < g.height
    requires SameOutside(atlas[..], before, p, g, atlasWidth)
    requires p.x + g.width <= atlasWidth ==> CopiedUpTo(atlas[..], p, g, atlasWidth, y, x)
    modifies atlas
    ensures SameOutside(atlas[..], before, p, g, atlasWidth)
    ensures p.x + g.width <= atlasWidth ==> CopiedUpTo(atlas[..], p, g, atlasWidth, y, x + 1)
  {
    var glyphPixelIndex := x + y * g.width;
    var pixelIndex := PixelAt(p.x, p.y, x, y, atlasWidth);
    if glyphPixelIndex < g.width * g.height && pixelIndex < atlasWidth * atlasHeight {
      ghost var a := atlas[..];
      atlas[pixelIndex] := g.data[glyphPixelIndex];
      WriteKeepsOutside(a, atlas[..], before, p, g, atlasWidth, x, y, g.data[glyphPixelIndex]);
      WriteExtendsCopy(a, atlas[..], p, g, atlasWidth, x, y);
    } else {
      GlyphIndexInRange(x, y, g.width, g.height);
    }
  }

  /** Writing a pixel of the glyph keeps the bytes outside it. */
  lemma WriteKeepsOutside(a: seq<byte>, a': seq<byte>, before: seq<byte>, p: Pen, g: Bitmap,
                          atlasWidth: nat, x: nat, y: nat, v: byte)
    requires x < g.width && y < g.height && PixelAt(p.x, p.y, x, y, atlasWidth) < |a|
    requires SameOutside(a, before, p, g, atlasWidth)
    requires a' == a[PixelAt(p.x, p.y, x, y, atlasWidth) := v]
    ensures SameOutside(a', before, p, g, atlasWidth)
  {
    assert InGlyph(PixelAt(p.x, p.y, x, y, atlasWidth), p, g, atlasWidth);
  }

  /** Writing pixel (x, y) its glyph byte extends the copied part of a
      glyph that fits in its row by that pixel. */
  lemma WriteExtendsCopy(a: seq<byte>, a': seq<byte>, p: Pen, g: Bitmap, atlasWidth: nat, x: nat, y: nat)
    requires x < g.width && y < g.height
    requires PixelAt(p.x, p.y, x, y, atlasWidth) < |a|
    requires a' == a[PixelAt(p.x, p.y, x, y, atlasWidth) := GlyphPixel(g, x, y)]
    requires p.x + g.width <= atlasWidth ==> CopiedUpTo(a, p, g, atlasWidth, y, x)
    ensures p.x + g.width <= atlasWidth ==> CopiedUpTo(a', p, g, atlasWidth, y, x + 1)
  {
    var i := PixelAt(p.x, p.y, x, y, atlasWidth);
    forall x': nat, y': nat | p.x + g.width <= atlasWidth && x' < g.width && y' < g.height
                               && PixelAt(p.x, p.y, x', y', atlasWidth) == i
      ensures x' == x && y' == y
    {
      PixelAtInjective(p.x, p.y, x', y', x, y, atlasWidth);
    }
  }

  /** The copy of one glyph into the atlas, row by row: only atlas indices
      the glyph covers change, and when the glyph fits in its row every
      pixel inside the atlas holds the glyph's byte. */
  method BlitGlyph(atlas: array<byte>, atlasWidth: nat, atlasHeight: nat, g: Bitmap, p: Pen)
    requires atlas.Length == atlasWidth * atlasHeight && WellSized(g)
    modifies atlas
    ensures SameOutside(atlas[..], old(atlas[..]), p, g, atlasWidth)
    ensures p.x + g.width <= atlasWidth ==> CopiedUpTo(atlas[..], p, g, atlasWidth, g.height, 0)
  {
    ghost var before := atlas[..];
    var y := 0;
    while y < g.height
      invariant y <= g.height
      invariant SameOutside(atlas[..], before, p, g, atlasWidth)
      invariant p.x + g.width <= atlasWidth ==> CopiedUpTo(atlas[..], p, g, atlasWidth, y, 0)
    {
      BlitRow(atlas, atlasWidth, atlasHeight, g, p, y, before);
      y := y + 1;
    }
  }

  /** The pen update after a glyph is copied, in the form of the source's
      loop body. */
  method MovePen(xOffset: nat, yOffset: nat, maxGlyphHeight: nat, width: nat, height: nat)
      returns (x: nat, y: nat, rowHeight: nat)
    ensures Pen(x, y, rowHeight) == Advance(Pen(xOffset, yOffset, maxGlyphHeight), width, height)
  {
    x, y, rowHeight := xOffset + width + 1, yOffset, maxGlyphHeight;
    if height > rowHeight {
      rowHeight := height;
    }
    if x >= MAX_ATLAS_WIDTH {
      y := y + rowHeight + 1;
      x := 0;
      rowHeight := 0;
    }
  }

  /** Bytes no glyph before the k-th covers are zero. */
  ghost predicate BlankOutside(a: seq<byte>, gs: seq<Bitmap>, k: nat, atlasWidth: nat)
    requires k <= |gs|
  {
    forall i :: 0 <= i < |a| && !CoveredBefore(i, gs, k, atlasWidth) ==> a[i] == 0
  }

  /** Copying the k-th glyph keeps the bytes no glyph up to it covers
      zero. */
  lemma BlankStep(a: seq<byte>, before: seq<byte>, gs: seq<Bitmap>, k: nat, atlasWidth: nat)
    requires k < |gs| && BlankOutside(before, gs, k, atlasWidth)
    requires SameOutside(a, before, PenBefore(gs, k), gs[k], atlasWidth)
    ensures BlankOutside(a, gs, k + 1, atlasWidth)
  {
  }

  /** FillAtlasWithGlyphs over the alphabet in its iteration order: a zeroed
      atlas of width * height bytes, each glyph copied in at the pen, whose
      position is recorded as the glyph's atlas offset. Every atlas byte no
      glyph covers stays zero. */
  method FillAtlasWithGlyphs(gs: seq<Bitmap>, atlasWidth: nat, atlasHeight: nat)
      returns (atlas: array<byte>, offsets: seq<(nat, nat)>)
    requires forall k :: 0 <= k < |gs| ==> WellSized(gs[k])
    ensures fresh(atlas) && atlas.Length == atlasWidth * atlasHeight
    ensures |offsets| == |gs|
    ensures forall k :: 0 <= k < |gs| ==> offsets[k] == (PenBefore(gs, k).x, PenBefore(gs, k).y)
    ensures BlankOutside(atlas[..], gs, |gs|, atlasWidth)
  {
    atlas := new byte[atlasWidth * atlasHeight](_ => 0);
    offsets := [];
    var xOffset: nat, yOffset: nat, maxGlyphHeight: nat := 0, 0, 0;
    var k := 0;
    while k < |gs|
      invariant k <= |gs|
      invariant Pen(xOffset, yOffset, maxGlyphHeight) == PenBefore(gs, k)
      invariant offsets == Offsets(gs, k)
      invariant BlankOutside(atlas[..], gs, k, atlasWidth)
    {
      var glyph := gs[k];
      offsets := offsets + [(xOffset, yOffset)];
      var pen := Pen(xOffset, yOffset, maxGlyphHeight);
      ghost var before := atlas[..];
      BlitGlyph(atlas, atlasWidth, atlasHeight, glyph, pen);
      BlankStep(atlas[..], before, gs, k, atlasWidth);
      xOffset, yOffset, maxGlyphHeight := MovePen(xOffset, yOffset, maxGlyphHeight, glyph.width, glyph.height);
      k := k + 1;
    }
    OffsetsArePens(gs, |gs|);
  }

  // ---------------------------------------------------------------------
  // GetCharacterCount and GetNewlineCount

  /** GetCharacterCount(text): strlen of the text. */
  function GetCharacterCount(text: string): (n: nat)
    ensures n <= |text| && NUL !in text[..n]
    ensures n < |text| ==> text[n] == NUL
  {
    CStringLength(text)
  }

  /** GetNewlineCount(text): the loop counting line feeds among the
      characters before the first NUL. */
  method GetNewlineCount(text: string) returns (newlineCount: nat)
    ensures newlineCount == Occurrences(CString(text), '\n')
  {
    newlineCount := 0;
    var charCount := CStringLength(text);
    var i := 0;
    while i < charCount
      invariant i <= charCount
      invariant newlineCount == Occurrences(text[..i], '\n')
    {
      assert text[..i + 1][..i] == text[..i];
      if text[i] == '\n' {
        newlineCount := newlineCount + 1;
      }
      i := i + 1;
    }
  }

  /** Nothing after the first NUL counts: a text and the text followed by
      a NUL and anything have the same line feed count. */
  lemma NewlinesStopAtNul(text: string, rest: string)
    requires NUL !in text
    ensures Occurrences(CString(text + [NUL] + rest), '\n') == Occurrences(text, '\n')
  {
    var t := text + [NUL] + rest;
    assert t[..|text|] == text;
    CStringOfPrefix(text, t);
  }

  lemma CStringOfPrefix(text: string, t: string)
    requires NUL !in text && |text| < |t| && t[..|text|] == text && t[|text|] == NUL
    ensures CString(t) == text
  {
    var n := CStringLength(t);
  }

  /** There are no more line feeds than characters. */
  lemma {:induction false} NewlinesAtMostCharacters(s: string)
    ensures Occurrences(s, '\n') <= |s|
  {
    if s != [] {
      NewlinesAtMostCharacters(s[..|s| - 1]);
    }
  }
}
