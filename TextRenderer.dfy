/** The renderer object: the atlas it builds once, in place, and the loop
    that draws a string from the table that build filled in. GPU work (the
    texture upload, the draw calls) is observed as values: the texture name
    the driver hands out is a parameter, and the quads drawn are returned. */
module Renderer {
  import opened Font
  import opened Metrics
  import opened Packing
  import opened Atlas
  import opened Drawing

  class TextRenderer {
    var texture: nat   // texture name, 0 until the atlas texture is created
    var width: nat     // atlas width in texels
    var height: nat    // atlas height in texels
    const characters: array<Character>

    ghost predicate Valid()
      reads this
    {
      characters.Length == TableSize
    }

    /** Value-initialises the fields, then builds the atlas. */
    constructor (ft: FreeType, textureName: nat)
      ensures Valid() && fresh(characters)
      ensures ft.Opened? ==>
        && texture == textureName
        && width == AtlasWidth(AllGlyphs(ft.face), 0, 0)
        && height == AtlasHeight(AllGlyphs(ft.face), 0, 0)
        && characters[..] == Built(ft.face)
      ensures !ft.Opened? ==> texture == 0 && width == 0 && height == 0 && characters[..] == Blank()
    {
      texture, width, height := 0, 0, 0;
      characters := new Character[TableSize](_ => Zero);
      new;
      assert characters[..] == Blank();
      CreateAtlas(ft, textureName);
    }

    /** Builds the atlas: sizes it from the accepted glyphs (pass 1),
        creates the texture, then places each accepted glyph and records its
        metrics (pass 2). Gives up, changing nothing, when the library or the
        face cannot be opened. */
    method CreateAtlas(ft: FreeType, textureName: nat)
      requires Valid()
      modifies this, characters
      ensures Valid()
      ensures !ft.Opened? ==>
        && texture == old(texture) && width == old(width) && height == old(height)
        && characters[..] == old(characters[..])
      ensures ft.Opened? ==>
        && texture == textureName
        && width == AtlasWidth(AllGlyphs(ft.face), old(width), old(height))
        && height == AtlasHeight(AllGlyphs(ft.face), old(width), old(height))
        && characters[..] == Filled(ft.face, EndCode, width, height, old(characters[..]))
    {
      if !ft.Opened? {
        return;
      }
      SizeAtlas(ft.face);
      texture := textureName;
      FillAtlas(ft.face);
    }

    /** Pass 1: the smallest atlas that holds every accepted glyph. Rows
        are filled greedily; the atlas width is the widest row and its
        height the rows' heights, both accumulated onto the current fields. */
    method SizeAtlas(face: Face)
      modifies this`width, this`height
      ensures width == AtlasWidth(AllGlyphs(face), old(width), old(height))
      ensures height == AtlasHeight(AllGlyphs(face), old(width), old(height))
    {
      ghost var w0, h0 := width, height;
      var rowWidth: nat, rowHeight: nat := 0, 0;
      for i := FirstCode to EndCode
        invariant Measured(IncludedGlyphs(face, i), w0, h0) == Measure(width, height, rowWidth, rowHeight)
      {
        IncludedNext(face, i);
        var loaded := face[i];
        if loaded.LoadFailed? {
          continue;
        }
        if Skip(i) {
          continue;
        }
        var g := loaded.glyph;
        Append(IncludedGlyphs(face, i), g, w0, h0);
        if Breaks(rowWidth, g.width) {
          width := Max(width, rowWidth);
          height := height + rowHeight;
          rowWidth := 0;
          rowHeight := 0;
        }
        rowWidth := rowWidth + g.width + 1;
        rowHeight := Max(rowHeight, g.rows);
      }
      width := Max(width, rowWidth);
      height := height + rowHeight;
    }

    /** Pass 2: places each accepted glyph with the same row-break test and
        writes its slot; every other slot is left as it was. */
    method FillAtlas(face: Face)
      requires Valid()
      modifies characters
      ensures characters[..] == Filled(face, EndCode, width, height, old(characters[..]))
    {
      var rowHeight: nat := 0;
      var xOffset: nat, yOffset: nat := 0, 0;
      for i := FirstCode to EndCode
        invariant Packed(IncludedGlyphs(face, i)) == Cursor(xOffset, yOffset, rowHeight)
        invariant characters[..] == Filled(face, i, width, height, old(characters[..]))
      {
        IncludedNext(face, i);
        var loaded := face[i];
        if loaded.LoadFailed? {
          continue;
        }
        if Skip(i) {
          continue;
        }
        var g := loaded.glyph;
        ghost var before := IncludedGlyphs(face, i);
        Append(before, g, 0, 0);
        if Breaks(xOffset, g.width) {
          yOffset := yOffset + rowHeight;
          rowHeight := 0;
          xOffset := 0;
        }
        assert Place(Packed(before), g) == Cursor(xOffset, yOffset, rowHeight);
        var e := Character(Pixels(g.advanceX), Pixels(g.advanceY), g.width, g.rows, g.left, g.top,
                           Ratio(xOffset, width), Ratio(yOffset, height));
        assert e == Slot(face, i, width, height);
        ghost var t := characters[..];
        characters[i] := e;
        assert characters[..] == t[i := e];
        rowHeight := Max(rowHeight, g.rows);
        xOffset := xOffset + g.width + 1;
        assert PackStep(Packed(before), g) == Cursor(xOffset, yOffset, rowHeight);
      }
    }

    /** Draws `text` from pen (`x`, `y`) at `scale`: one quad for each
        character whose advance is not zero, the pen moving on by each
        advance. Returns the quads drawn, in order, and where the pen ends. */
    method RenderText(text: string, x: real, y: int, scale: real) returns (quads: seq<Quad>, ghost pen: real)
      requires Valid()
      requires Ascii(text)
      ensures Indexes(characters[..], text)
      ensures quads == Draws(characters[..], text, x, y, scale, width, height)
      ensures pen == Pen(x, AdvanceSum(characters[..], text), scale)
      ensures text == [] ==> quads == [] && pen == x
    {
      ghost var table := characters[..];
      var penX := x;
      quads := [];
      for i := 0 to |text|
        invariant Indexes(table, text[..i])
        invariant quads == Draws(table, text[..i], x, y, scale, width, height)
        invariant penX == Pen(x, AdvanceSum(table, text[..i]), scale)
      {
        ghost var pre := text[..i];
        assert text[..i + 1][..i] == pre;
        assert text[..i + 1][i] == text[i];
        assert Indexes(table, text[..i + 1]);
        var ch := characters[text[i] as int];
        if ch.ax == 0 {
          assert Draws(table, text[..i + 1], x, y, scale, width, height)
              == Draws(table, pre, x, y, scale, width, height) + [];
          continue;
        }
        var xpos := penX + ch.bl as real;
        var ypos := y - (ch.bh - ch.bt);
        var w := ch.bw as real * scale;
        var h := ch.bh as real * scale;
        var quad := Quad(xpos, ypos, w, h, ch.tx, ch.ty, Ratio(ch.bw, width), Ratio(ch.bh, height));
        assert quad == QuadAt(ch, penX, y, scale, width, height);
        assert Draws(table, text[..i + 1], x, y, scale, width, height)
            == Draws(table, pre, x, y, scale, width, height) + [quad];
        quads := quads + [quad];
        PenShift(x, AdvanceSum(table, pre), ch.ax, scale);
        penX := penX + ch.ax as real * scale;
      }
      assert text[..|text|] == text;
      pen := penX;
    }
  }

  // -----------------------------------------------------------------------
  // What a renderer's table guarantees the draw loop

  /** A renderer whose build gave up early (library or face not opened)
      draws nothing, whatever the string. */
  lemma FailedBuildDrawsNothing(text: string, x: real, y: int, scale: real)
    requires Ascii(text)
    ensures Draws(Blank(), text, x, y, scale, 0, 0) == []
  {
    BlankTableDrawsNothing(Blank(), text, x, y, scale, 0, 0);
  }

  /** A code that was skipped, failed to load or lies outside 32..127 is
      never drawn by a renderer built from `face` and does not move the pen:
      removing it from the string changes nothing. */
  lemma UnplacedCodeInvisible(face: Face, a: string, c: char, b: string, x: real, y: int, scale: real,
                              atlasWidth: int, atlasHeight: int)
    requires Ascii(a) && Ascii(b)
    requires c as int < TableSize && !(FirstCode <= c as int && Included(face, c as int))
    ensures Indexes(Built(face), a + [c] + b) && Indexes(Built(face), a + b)
    ensures Draws(Built(face), a + [c] + b, x, y, scale, atlasWidth, atlasHeight)
         == Draws(Built(face), a + b, x, y, scale, atlasWidth, atlasHeight)
    ensures AdvanceSum(Built(face), a + [c] + b) == AdvanceSum(Built(face), a + b)
  {
    BuiltUnplacedZero(face, c as int);
    ZeroAdvanceInvisible(Built(face), a, c, b, x, y, scale, atlasWidth, atlasHeight);
  }
}
