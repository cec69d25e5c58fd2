/** What the text renderer receives from FreeType. FreeType itself is not
    modelled: a face is the answer `FT_Load_Char(face, c, FT_LOAD_RENDER)`
    gives for each character code, and the same answer is given every time
    the code is loaded. */
module Font {

  /** One rendered glyph: bitmap size in pixels, bearings, and the advance
      in 26.6 fixed point as FreeType reports it. */
  datatype Glyph = Glyph(
    width: nat,      // bitmap.width
    rows: nat,       // bitmap.rows
    left: int,       // bitmap_left
    top: int,        // bitmap_top
    advanceX: int,   // advance.x, 1/64 pixel
    advanceY: int    // advance.y, 1/64 pixel
  )

  /** Outcome of loading and rendering one character code. */
  datatype LoadResult = LoadFailed | Loaded(glyph: Glyph)

  /** A face at its fixed pixel size: the outcome of loading each
      character code 0..127, indexed by the code. */
  type Face = f: seq<LoadResult> | |f| == 128 witness seq(128, _ => LoadFailed)

  /** Outcome of initialising the library and opening the font file. */
  datatype FreeType =
    | InitFailed            // FT_Init_FreeType reported an error
    | FaceFailed            // FT_New_Face reported an error
    | Opened(face: Face)
}
