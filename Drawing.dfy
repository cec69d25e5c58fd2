/** What the draw loop does with a string: one textured quad per character
    whose advance is not zero, placed from a pen that moves left to right. */
module Drawing {
  import opened Metrics

  /** One draw of the shared unit quad: where it goes on screen and how big
      it is (the model transform), and which part of the atlas it shows
      (the texture-coordinate rectangle). */
  datatype Quad = Quad(
    x: real, y: int,               // translation
    width: real, height: real,     // scale
    u: Ratio, v: Ratio,            // atlas offset of the glyph
    du: Ratio, dv: Ratio           // glyph size over atlas size
  )

  /** Every character of `text` indexes a slot of `table`. */
  predicate Indexes(table: seq<Character>, text: string)
  {
    forall i :: 0 <= i < |text| ==> text[i] as int < |table|
  }

  /** The quad drawn for a character with metrics `ch` when the pen is at
      (`pen`, `y`), in an atlas `atlasWidth` by `atlasHeight`. */
  function QuadAt(ch: Character, pen: real, y: int, scale: real, atlasWidth: int, atlasHeight: int): Quad
  {
    Quad(pen + ch.bl as real, y - (ch.bh - ch.bt), ch.bw as real * scale, ch.bh as real * scale,
         ch.tx, ch.ty, Ratio(ch.bw, atlasWidth), Ratio(ch.bh, atlasHeight))
  }

  /** Total advance, in whole pixels before scaling, of the characters of
      `text`. */
  function AdvanceSum(table: seq<Character>, text: string): int
    requires Indexes(table, text)
  {
    if text == [] then 0
    else AdvanceSum(table, text[..|text| - 1]) + table[text[|text| - 1] as int].ax
  }

  /** The pen `x` moved on by `advance` whole pixels at scale `scale`. */
  function Pen(x: real, advance: int, scale: real): real
  {
    x + advance as real * scale
  }

  /** The quads drawn for `text` from pen (`x`, `y`): each character with a
      non-zero advance is drawn where the advances of the characters before
      it have moved the pen. */
  function Draws(table: seq<Character>, text: string, x: real, y: int, scale: real,
                 atlasWidth: int, atlasHeight: int): seq<Quad>
    requires Indexes(table, text)
  {
    if text == [] then []
    else
      var pre := text[..|text| - 1];
      var ch := table[text[|text| - 1] as int];
      Draws(table, pre, x, y, scale, atlasWidth, atlasHeight)
        + if ch.ax == 0 then []
          else [QuadAt(ch, Pen(x, AdvanceSum(table, pre), scale), y, scale, atlasWidth, atlasHeight)]
  }

  /** Number of characters of `text` with a non-zero advance. */
  function Visible(table: seq<Character>, text: string): nat
    requires Indexes(table, text)
  {
    if text == [] then 0
    else Visible(table, text[..|text| - 1]) + if table[text[|text| - 1] as int].ax == 0 then 0 else 1
  }

  // ---------------------------------------------------------------------

  /** Advances add up over a concatenation. */
  lemma {:induction false} AdvanceSumConcat(table: seq<Character>, a: string, b: string)
    requires Indexes(table, a) && Indexes(table, b)
    ensures Indexes(table, a + b)
    ensures AdvanceSum(table, a + b) == AdvanceSum(table, a) + AdvanceSum(table, b)
  {
    if b != [] {
      var b' := b[..|b| - 1];
      AdvanceSumConcat(table, a, b');
      assert (a + b)[..|a + b| - 1] == a + b';
    } else {
      assert a + b == a;
    }
  }

  /** Moving the pen by `a + b` is moving it by `a`, then by `b`. */
  lemma PenShift(x: real, a: int, b: int, scale: real)
    ensures Pen(x, a + b, scale) == Pen(Pen(x, a, scale), b, scale)
  {
  }

  /** Drawing `a + b` draws `a`, then draws `b` from the pen `a` left. */
  lemma {:induction false} DrawsConcat(table: seq<Character>, a: string, b: string, x: real, y: int, scale: real,
                                       atlasWidth: int, atlasHeight: int)
    requires Indexes(table, a) && Indexes(table, b)
    ensures Indexes(table, a + b)
    ensures Draws(table, a + b, x, y, scale, atlasWidth, atlasHeight)
         == Draws(table, a, x, y, scale, atlasWidth, atlasHeight)
          + Draws(table, b, Pen(x, AdvanceSum(table, a), scale), y, scale, atlasWidth, atlasHeight)
  {
    AdvanceSumConcat(table, a, b);
    if b != [] {
      var b' := b[..|b| - 1];
      var ch := table[b[|b| - 1] as int];
      var x' := Pen(x, AdvanceSum(table, a), scale);
      DrawsConcat(table, a, b', x, y, scale, atlasWidth, atlasHeight);
      AdvanceSumConcat(table, a, b');
      PenShift(x, AdvanceSum(table, a), AdvanceSum(table, b'), scale);
      var pen := Pen(x', AdvanceSum(table, b'), scale);
      assert Pen(x, AdvanceSum(table, a + b'), scale) == pen;
      var last := if ch.ax == 0 then [] else [QuadAt(ch, pen, y, scale, atlasWidth, atlasHeight)];
      var da := Draws(table, a, x, y, scale, atlasWidth, atlasHeight);
      var db' := Draws(table, b', x', y, scale, atlasWidth, atlasHeight);
      assert Draws(table, b, x', y, scale, atlasWidth, atlasHeight) == db' + last;
      assert (a + b)[..|a + b| - 1] == a + b';
      assert (a + b)[|a + b| - 1] == b[|b| - 1];
      assert Draws(table, a + b, x, y, scale, atlasWidth, atlasHeight) == (da + db') + last;
      assert (da + db') + last == da + (db' + last);
    } else {
      assert a + b == a;
    }
  }

  /** A character with zero advance is never drawn and does not move the
      pen, wherever it stands in the string and whatever the scale. */
  lemma ZeroAdvanceInvisible(table: seq<Character>, a: string, c: char, b: string, x: real, y: int, scale: real,
                             atlasWidth: int, atlasHeight: int)
    requires Indexes(table, a) && Indexes(table, b)
    requires c as int < |table| && table[c as int].ax == 0
    ensures Indexes(table, a + [c] + b) && Indexes(table, a + b)
    ensures AdvanceSum(table, a + [c] + b) == AdvanceSum(table, a + b)
    ensures Draws(table, a + [c] + b, x, y, scale, atlasWidth, atlasHeight)
         == Draws(table, a + b, x, y, scale, atlasWidth, atlasHeight)
  {
    assert Indexes(table, [c]);
    AdvanceSumConcat(table, a, [c]);
    DrawsConcat(table, a, [c], x, y, scale, atlasWidth, atlasHeight);
    assert [c][..0] == [];
    AdvanceSumConcat(table, a + [c], b);
    DrawsConcat(table, a + [c], b, x, y, scale, atlasWidth, atlasHeight);
    AdvanceSumConcat(table, a, b);
    DrawsConcat(table, a, b, x, y, scale, atlasWidth, atlasHeight);
  }

  /** One quad is drawn per character with a non-zero advance. */
  lemma {:induction false} DrawCount(table: seq<Character>, text: string, x: real, y: int, scale: real,
                                     atlasWidth: int, atlasHeight: int)
    requires Indexes(table, text)
    ensures |Draws(table, text, x, y, scale, atlasWidth, atlasHeight)| == Visible(table, text)
  {
    if text != [] {
      DrawCount(table, text[..|text| - 1], x, y, scale, atlasWidth, atlasHeight);
    }
  }

  /** With every slot's advance zero, as after a build that gave up early,
      nothing is drawn and the pen never moves. */
  lemma {:induction false} BlankTableDrawsNothing(table: seq<Character>, text: string, x: real, y: int, scale: real,
                                                  atlasWidth: int, atlasHeight: int)
    requires Indexes(table, text)
    requires forall c :: 0 <= c < |table| ==> table[c].ax == 0
    ensures Draws(table, text, x, y, scale, atlasWidth, atlasHeight) == []
    ensures AdvanceSum(table, text) == 0
  {
    if text != [] {
      BlankTableDrawsNothing(table, text[..|text| - 1], x, y, scale, atlasWidth, atlasHeight);
    }
  }
}
