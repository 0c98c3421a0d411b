/**
 * The text cluster group and the direct-mapping check of the rasterizer's text
 * renderer (src/vtrasterizer/TextRenderer.h).
 */
module Rasterizer {

  newtype uint32 = x: int | 0 <= x < 0x1_0000_0000

  datatype Point = Point(x: int, y: int)

  /**
   * The text styles of a cluster group. TextStyle is declared outside this
   * model; only Invalid, the initial style of a group, is used here.
   */
  datatype TextStyle = Invalid | Regular | Bold | Italic | BoldItalic

  datatype RGBColor = RGBColor(red: nat, green: nat, blue: nat)

  /** A font as the shaper knows it, by its key. */
  datatype FontKey = FontKey(value: nat)

  /** The fonts of the renderer, one per style plus the emoji font. */
  datatype FontKeys = FontKeys(regular: FontKey, bold: FontKey, italic: FontKey,
                               boldItalic: FontKey, emoji: FontKey)

  /** A glyph: the font it comes from and its index in that font. */
  datatype GlyphKey = GlyphKey(font: FontKey, index: nat)

  /**
   * TextClusterGroup: the work data of the text group being collected, with
   * the pen position it starts at.
   */
  class TextClusterGroup {
    var initialPenPosition: Point
    var style: TextStyle
    var color: RGBColor
    var codepoints: seq<nat>
    var clusters: seq<nat>
    var cellCount: int

    constructor ()
      ensures initialPenPosition == Point(0, 0) && style == Invalid && color == RGBColor(0, 0, 0)
      ensures codepoints == [] && clusters == [] && cellCount == 0
    {
      initialPenPosition := Point(0, 0);
      style := Invalid;
      color := RGBColor(0, 0, 0);
      codepoints := [];
      clusters := [];
      cellCount := 0;
    }

    /**
     * resetAndMovePenForward: an empty group whose pen has moved right by the
     * given amount; style and colour stay.
     */
    method ResetAndMovePenForward(penIncrementInX: int)
      modifies this
      ensures codepoints == [] && clusters == [] && cellCount == 0
      ensures initialPenPosition == Point(old(initialPenPosition.x) + penIncrementInX, old(initialPenPosition.y))
      ensures style == old(style) && color == old(color)
    {
      codepoints := [];
      clusters := [];
      cellCount := 0;
      initialPenPosition := initialPenPosition.(x := initialPenPosition.x + penIncrementInX);
    }
  }

  /** Two resets in a row move the pen by the sum of the increments. */
  method ResetTwice(group: TextClusterGroup, first: int, second: int)
    modifies group
    ensures group.initialPenPosition == Point(old(group.initialPenPosition.x) + first + second,
                                              old(group.initialPenPosition.y))
    ensures group.codepoints == [] && group.clusters == [] && group.cellCount == 0
  {
    group.ResetAndMovePenForward(first);
    group.ResetAndMovePenForward(second);
  }

  /**
   * The part of TextRenderer the direct-mapping check reads: whether direct
   * mapping is enabled, the fonts, and the table from glyph index to atlas tile
   * (0 for no tile).
   */
  class TextRenderer {
    var directMapping: bool
    var fonts: FontKeys
    var directMappedGlyphKeyToTileIndex: seq<uint32>

    constructor (fontKeys: FontKeys)
      ensures !directMapping && fonts == fontKeys && directMappedGlyphKeyToTileIndex == []
    {
      directMapping := false;
      fonts := fontKeys;
      directMappedGlyphKeyToTileIndex := [];
    }

    /**
     * isGlyphDirectMapped. The table is read only after the index is known to
     * be inside it, so the check is defined for every glyph.
     */
    predicate IsGlyphDirectMapped(glyph: GlyphKey): (mapped: bool)
      reads this
      ensures mapped ==> directMapping && glyph.font == fonts.regular
      ensures mapped ==> glyph.index < |directMappedGlyphKeyToTileIndex|
                         && directMappedGlyphKeyToTileIndex[glyph.index] != 0
    {
      directMapping
      && glyph.font == fonts.regular
      && glyph.index < |directMappedGlyphKeyToTileIndex|
      && directMappedGlyphKeyToTileIndex[glyph.index] != 0
    }

    /** A glyph of the regular font with a tile in the enabled table is direct-mapped. */
    lemma DirectMappedWhenTiled(glyph: GlyphKey)
      requires directMapping && glyph.font == fonts.regular
      requires glyph.index < |directMappedGlyphKeyToTileIndex| && directMappedGlyphKeyToTileIndex[glyph.index] != 0
      ensures IsGlyphDirectMapped(glyph)
    {
    }

    /** No glyph of another font, and none at all while direct mapping is off, is direct-mapped. */
    lemma NotDirectMapped(glyph: GlyphKey)
      requires !directMapping || glyph.font != fonts.regular
      ensures !IsGlyphDirectMapped(glyph)
    {
    }
  }
}
