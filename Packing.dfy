/** Greedy row packing of glyph bitmaps into an atlas, narrower than
    `MaxWidth` texels when every glyph is narrower than `MaxWidth - 1`. Both passes of the atlas builder are stated here as folds
    over the glyphs they accept, in the order they accept them: the sizing
    pass (`Measured`) and the packing pass (`Packed`). They share one
    row-break test, `Breaks`. */
module Packing {
  import opened Font

  /** The row width, in texels, at which a row is closed. */
  const MaxWidth: int := 1024

  function Max(a: nat, b: nat): nat
  {
    if a < b then b else a
  }

  /** The row-break test both passes apply before adding a glyph of width
      `width` (plus one padding column) to a row already `rowWidth` wide. */
  predicate Breaks(rowWidth: int, width: int)
  {
    rowWidth + width + 1 >= MaxWidth
  }

  // ---------------------------------------------------------------------
  // Sizing pass

  /** State of the sizing pass: atlas width and height accumulated from the
      closed rows, and the width and height of the open row. */
  datatype Measure = Measure(width: nat, height: nat, rowWidth: nat, rowHeight: nat)

  /** One glyph of the sizing pass: close the open row if the glyph does not
      fit, then add the glyph to the (possibly new) open row. */
  function MeasureStep(m: Measure, g: Glyph): Measure
  {
    var m' := if Breaks(m.rowWidth, g.width)
              then Measure(Max(m.width, m.rowWidth), m.height + m.rowHeight, 0, 0)
              else m;
    m'.(rowWidth := m'.rowWidth + g.width + 1, rowHeight := Max(m'.rowHeight, g.rows))
  }

  /** State of the sizing pass after the glyphs `gs`, starting from an atlas
      of `w0` by `h0` and an empty open row. */
  function Measured(gs: seq<Glyph>, w0: nat, h0: nat): Measure
  {
    if gs == [] then Measure(w0, h0, 0, 0)
    else MeasureStep(Measured(gs[..|gs| - 1], w0, h0), gs[|gs| - 1])
  }

  /** Atlas width once the last row is flushed. */
  function AtlasWidth(gs: seq<Glyph>, w0: nat, h0: nat): nat
  {
    var m := Measured(gs, w0, h0);
    Max(m.width, m.rowWidth)
  }

  /** Atlas height once the last row is flushed. */
  function AtlasHeight(gs: seq<Glyph>, w0: nat, h0: nat): nat
  {
    var m := Measured(gs, w0, h0);
    m.height + m.rowHeight
  }

  // ---------------------------------------------------------------------
  // Packing pass

  /** State of the packing pass: where the next glyph goes, and the height
      of the current row. */
  datatype Cursor = Cursor(x: nat, y: nat, rowHeight: nat)

  /** Where a glyph is placed: at the cursor, or at the start of a new row
      below the current one when it does not fit. */
  function Place(c: Cursor, g: Glyph): Cursor
  {
    if Breaks(c.x, g.width) then Cursor(0, c.y + c.rowHeight, 0) else c
  }

  /** One glyph of the packing pass: place it, then move past it. */
  function PackStep(c: Cursor, g: Glyph): Cursor
  {
    var p := Place(c, g);
    Cursor(p.x + g.width + 1, p.y, Max(p.rowHeight, g.rows))
  }

  /** State of the packing pass after the glyphs `gs`, from the origin. */
  function Packed(gs: seq<Glyph>): Cursor
  {
    if gs == [] then Cursor(0, 0, 0)
    else PackStep(Packed(gs[..|gs| - 1]), gs[|gs| - 1])
  }

  /** Top-left corner (`x`, `y`) at which the packing pass puts glyph `i`. */
  function Position(gs: seq<Glyph>, i: int): Cursor
    requires 0 <= i < |gs|
  {
    Place(Packed(gs[..i]), gs[i])
  }

  /** Both passes take one glyph at a time. */
  lemma Append(gs: seq<Glyph>, g: Glyph, w0: nat, h0: nat)
    ensures Measured(gs + [g], w0, h0) == MeasureStep(Measured(gs, w0, h0), g)
    ensures Packed(gs + [g]) == PackStep(Packed(gs), g)
  {
    assert (gs + [g])[..|gs|] == gs;
  }

  // ---------------------------------------------------------------------
  // The two passes agree

  /** The packing cursor is the sizing pass's open row: same width, same
      height, and `y` is the height of the rows the sizing pass closed. */
  lemma {:induction false} PassesAgree(gs: seq<Glyph>, w0: nat, h0: nat)
    ensures Packed(gs).x == Measured(gs, w0, h0).rowWidth
    ensures Packed(gs).rowHeight == Measured(gs, w0, h0).rowHeight
    ensures h0 + Packed(gs).y == Measured(gs, w0, h0).height
  {
    if gs != [] {
      PassesAgree(gs[..|gs| - 1], w0, h0);
    }
  }

  /** Both passes break a row at the same glyphs: the packing pass starts a
      new row for glyph `i` exactly when the sizing pass closes one there,
      and it places the glyph at the height of the rows closed so far. */
  lemma SameBreaks(gs: seq<Glyph>, i: int, w0: nat, h0: nat)
    requires 0 <= i < |gs|
    ensures Breaks(Packed(gs[..i]).x, gs[i].width) <==> Breaks(Measured(gs[..i], w0, h0).rowWidth, gs[i].width)
    ensures h0 + Position(gs, i).y == Measured(gs[..i + 1], w0, h0).height
    ensures Position(gs, i).x + gs[i].width + 1 == Measured(gs[..i + 1], w0, h0).rowWidth
  {
    PassesAgree(gs[..i], w0, h0);
    assert gs[..i + 1][..i] == gs[..i];
  }

  // ---------------------------------------------------------------------
  // Placed glyphs lie inside the atlas and do not overlap

  /** A glyph placed at `p` lies behind the cursor `cur`: either wholly
      above the cursor's row, or in that row, left of the cursor with a
      padding column to spare, and no taller than the row. */
  ghost predicate Behind(p: Cursor, g: Glyph, cur: Cursor)
  {
    || p.y + g.rows <= cur.y
    || (p.y == cur.y && p.x + g.width + 1 <= cur.x && g.rows <= cur.rowHeight)
  }

  lemma BehindStep(p: Cursor, g: Glyph, cur: Cursor, h: Glyph)
    requires Behind(p, g, cur)
    ensures Behind(p, g, PackStep(cur, h))
  {
  }

  /** Every glyph already placed lies behind the packing cursor. */
  lemma {:induction false} PlacedBehindCursor(gs: seq<Glyph>, i: int)
    requires 0 <= i < |gs|
    ensures Behind(Position(gs, i), gs[i], Packed(gs))
  {
    var n := |gs| - 1;
    var pre := gs[..n];
    if i < n {
      PlacedBehindCursor(pre, i);
      assert pre[..i] == gs[..i];
      BehindStep(Position(gs, i), gs[i], Packed(pre), gs[n]);
    } else {
      assert gs[..i] == pre;
    }
  }

  /** Two glyphs placed in order: the first lies wholly above the second,
      or in the same row, left of it, with at least one padding column
      between them. */
  lemma Separated(gs: seq<Glyph>, i: int, j: int)
    requires 0 <= i < j < |gs|
    ensures var p, q := Position(gs, i), Position(gs, j);
      || p.y + gs[i].rows <= q.y
      || (p.y == q.y && p.x + gs[i].width + 1 <= q.x)
  {
    PlacedBehindCursor(gs[..j], i);
    assert gs[..j][..i] == gs[..i];
  }

  /** The rectangles `width` by `rows` at `p` and `q` share no texel. */
  predicate Disjoint(p: Cursor, g: Glyph, q: Cursor, h: Glyph)
  {
    || p.x + g.width <= q.x || q.x + h.width <= p.x
    || p.y + g.rows <= q.y || q.y + h.rows <= p.y
  }

  /** No two placed glyphs overlap. */
  lemma NoOverlap(gs: seq<Glyph>, i: int, j: int)
    requires 0 <= i < |gs| && 0 <= j < |gs| && i != j
    ensures Disjoint(Position(gs, i), gs[i], Position(gs, j), gs[j])
  {
    if i < j { Separated(gs, i, j); } else { Separated(gs, j, i); }
  }

  /** Every placed glyph ends, padding column included, within the widest
      row measured so far (closed rows and the open one). */
  lemma {:induction false} WithinMeasuredWidth(gs: seq<Glyph>, i: int, w0: nat, h0: nat)
    requires 0 <= i < |gs|
    ensures Position(gs, i).x + gs[i].width + 1 <= AtlasWidth(gs, w0, h0)
  {
    var n := |gs| - 1;
    if i < n {
      var pre := gs[..n];
      WithinMeasuredWidth(pre, i, w0, h0);
      assert pre[..i] == gs[..i];
    } else {
      SameBreaks(gs, i, w0, h0);
      assert gs[..i + 1] == gs;
    }
  }

  /** Every placed glyph lies inside the atlas the sizing pass computed:
      inside its width with room for the padding column, and inside the
      height the glyphs added to `h0`. */
  lemma InBounds(gs: seq<Glyph>, i: int, w0: nat, h0: nat)
    requires 0 <= i < |gs|
    ensures Position(gs, i).x + gs[i].width < AtlasWidth(gs, w0, h0)
    ensures h0 + Position(gs, i).y + gs[i].rows <= AtlasHeight(gs, w0, h0)
  {
    WithinMeasuredWidth(gs, i, w0, h0);
    PlacedBehindCursor(gs, i);
    PassesAgree(gs, w0, h0);
  }

  // ---------------------------------------------------------------------
  // The atlas stays within MaxWidth

  lemma {:induction false} OpenRowBelowMax(gs: seq<Glyph>, w0: nat, h0: nat)
    requires w0 < MaxWidth
    requires forall k :: 0 <= k < |gs| ==> gs[k].width + 1 < MaxWidth
    ensures Measured(gs, w0, h0).width < MaxWidth
    ensures Measured(gs, w0, h0).rowWidth < MaxWidth
  {
    if gs != [] {
      OpenRowBelowMax(gs[..|gs| - 1], w0, h0);
    }
  }

  /** The atlas is narrower than `MaxWidth` whenever every glyph is, with
      its padding column. */
  lemma WidthBelowMax(gs: seq<Glyph>, w0: nat, h0: nat)
    requires w0 < MaxWidth
    requires forall k :: 0 <= k < |gs| ==> gs[k].width + 1 < MaxWidth
    ensures AtlasWidth(gs, w0, h0) < MaxWidth
  {
    OpenRowBelowMax(gs, w0, h0);
  }

  // ---------------------------------------------------------------------
  // The atlas is the bounding box of its rows

  /** Width a row takes: each glyph's width plus one padding column. */
  function RowWidth(r: seq<Glyph>): nat
  {
    if r == [] then 0 else RowWidth(r[..|r| - 1]) + r[|r| - 1].width + 1
  }

  /** Height a row takes: its tallest glyph. */
  function RowHeight(r: seq<Glyph>): nat
  {
    if r == [] then 0 else Max(RowHeight(r[..|r| - 1]), r[|r| - 1].rows)
  }

  /** The rows greedy packing makes of `gs`, the last one open. */
  function Rows(gs: seq<Glyph>): (rs: seq<seq<Glyph>>)
    ensures |rs| >= 1
  {
    if gs == [] then [[]]
    else
      var rs := Rows(gs[..|gs| - 1]);
      var g := gs[|gs| - 1];
      var last := rs[|rs| - 1];
      if Breaks(RowWidth(last), g.width) then rs + [[g]]
      else rs[..|rs| - 1] + [last + [g]]
  }

  function Flatten(rs: seq<seq<Glyph>>): seq<Glyph>
  {
    if rs == [] then [] else Flatten(rs[..|rs| - 1]) + rs[|rs| - 1]
  }

  function SumHeights(rs: seq<seq<Glyph>>): nat
  {
    if rs == [] then 0 else SumHeights(rs[..|rs| - 1]) + RowHeight(rs[|rs| - 1])
  }

  function Widest(rs: seq<seq<Glyph>>, w0: nat): nat
  {
    if rs == [] then w0 else Max(Widest(rs[..|rs| - 1], w0), RowWidth(rs[|rs| - 1]))
  }

  /** The rows hold exactly the glyphs, in order. */
  lemma {:induction false} RowsPartition(gs: seq<Glyph>)
    ensures Flatten(Rows(gs)) == gs
  {
    if gs != [] {
      var pre := gs[..|gs| - 1];
      var g := gs[|gs| - 1];
      RowsPartition(pre);
      var rs := Rows(pre);
      var last := rs[|rs| - 1];
      if Breaks(RowWidth(last), g.width) {
        assert (rs + [[g]])[..|rs|] == rs;
      } else {
        var rs' := rs[..|rs| - 1] + [last + [g]];
        assert rs'[..|rs'| - 1] == rs[..|rs| - 1];
        assert rs == rs[..|rs| - 1] + [last];
        assert Flatten(rs) == Flatten(rs[..|rs| - 1]) + last;
      }
      assert gs == pre + [g];
    }
  }

  /** The sizing pass's state is the rows made so far: the open row is the
      last row, and the closed ones account for the width and height. */
  lemma {:induction false} MeasuredRows(gs: seq<Glyph>, w0: nat, h0: nat)
    ensures var m, rs := Measured(gs, w0, h0), Rows(gs);
      && m.rowWidth == RowWidth(rs[|rs| - 1])
      && m.rowHeight == RowHeight(rs[|rs| - 1])
      && m.height == h0 + SumHeights(rs[..|rs| - 1])
      && m.width == Widest(rs[..|rs| - 1], w0)
  {
    if gs != [] {
      var pre := gs[..|gs| - 1];
      var g := gs[|gs| - 1];
      MeasuredRows(pre, w0, h0);
      var rs := Rows(pre);
      var last := rs[|rs| - 1];
      if Breaks(RowWidth(last), g.width) {
        var rs' := rs + [[g]];
        assert rs'[..|rs'| - 1] == rs;
        assert rs == rs[..|rs| - 1] + [last];
        assert [g][..0] == [];
      } else {
        var rs' := rs[..|rs| - 1] + [last + [g]];
        assert rs'[..|rs'| - 1] == rs[..|rs| - 1];
        assert (last + [g])[..|last|] == last;
      }
    }
  }

  /** The atlas is the bounding box of the rows stacked: as wide as the
      widest row (or `w0`), and as high as the rows' heights added to `h0`. */
  lemma AtlasIsRowsBoundingBox(gs: seq<Glyph>, w0: nat, h0: nat)
    ensures AtlasWidth(gs, w0, h0) == Widest(Rows(gs), w0)
    ensures AtlasHeight(gs, w0, h0) == h0 + SumHeights(Rows(gs))
  {
    MeasuredRows(gs, w0, h0);
    var rs := Rows(gs);
    assert rs == rs[..|rs| - 1] + [rs[|rs| - 1]];
  }
}
