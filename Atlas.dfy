/** Which character codes go into the atlas, and what is recorded for each:
    the denylist, the glyphs both passes accept, and the slot written for
    an accepted code. */
module Atlas {
  import opened Font
  import opened Metrics
  import opened Packing

  /** Both passes visit the codes FirstCode .. EndCode - 1 in ascending order. */
  const FirstCode: int := 32
  const EndCode: int := 128

  /** The bytes of the denylist literal `'|@~/><^¨{}[]\"`. The diaeresis
      is two bytes in the UTF-8 source (0xC2 0xA8), neither of them a
      printable ASCII code. */
  const Denylist: seq<int> := [
    0x27, 0x7C, 0x40, 0x7E, 0x2F, 0x3E, 0x3C, 0x5E,  // ' | @ ~ / > < ^
    0xC2, 0xA8,                                      // the diaeresis
    0x7B, 0x7D, 0x5B, 0x5D, 0x5C, 0x22               // { } [ ] \ "
  ]

  /** The skip rule: the code, converted to a byte, occurs in the denylist
      (`find` does not answer `npos`). */
  predicate Skip(c: int)
  {
    c % 256 in Denylist
  }

  /** Within the codes visited, exactly the 14 printable characters
      ' | @ ~ / > < ^ { } [ ] \ " are skipped. */
  lemma SkipWithinVisited(c: int)
    requires FirstCode <= c < EndCode
    ensures Skip(c) <==> (c as char) in "'|@~/><^{}[]\\\""
  {
    assert c % 256 == c;
    var printable := "'|@~/><^{}[]\\\"";
    assert printable == ['\'', '|', '@', '~', '/', '>', '<', '^', '{', '}', '[', ']', '\\', '"'];
    assert c in Denylist <==> c in [0x27, 0x7C, 0x40, 0x7E, 0x2F, 0x3E, 0x3C, 0x5E, 0x7B, 0x7D, 0x5B, 0x5D, 0x5C, 0x22];
  }

  /** A code both passes accept: its glyph loads and it is not skipped. */
  predicate Included(face: Face, c: int)
  {
    0 <= c < |face| && face[c].Loaded? && !Skip(c)
  }

  /** The glyphs of the accepted codes among FirstCode .. n - 1, in order. */
  function IncludedGlyphs(face: Face, n: int): seq<Glyph>
    decreases n - FirstCode
  {
    if n <= FirstCode then []
    else IncludedGlyphs(face, n - 1) + (if Included(face, n - 1) then [face[n - 1].glyph] else [])
  }

  /** Visiting code `i` adds its glyph when it is accepted, and nothing
      otherwise. */
  lemma IncludedNext(face: Face, i: int)
    requires FirstCode <= i < EndCode
    ensures face[i].LoadFailed? || Skip(i) ==> IncludedGlyphs(face, i + 1) == IncludedGlyphs(face, i)
    ensures face[i].Loaded? && !Skip(i) ==> IncludedGlyphs(face, i + 1) == IncludedGlyphs(face, i) + [face[i].glyph]
  {
  }

  /** Every accepted glyph, in the order both passes visit them. */
  function AllGlyphs(face: Face): seq<Glyph>
  {
    IncludedGlyphs(face, EndCode)
  }

  /** A 26.6 fixed-point value in whole pixels: an arithmetic shift right
      by six bits, which rounds toward negative infinity. */
  function Pixels(v: int): (r: int)
    ensures r * 64 <= v < r * 64 + 64
  {
    v / 64
  }

  /** The slot the packing pass writes for an accepted code `c`, in an atlas
      `width` by `height`. */
  function Slot(face: Face, c: int, width: nat, height: nat): Character
    requires Included(face, c)
  {
    var g := face[c].glyph;
    var p := Place(Packed(IncludedGlyphs(face, c)), g);
    Character(Pixels(g.advanceX), Pixels(g.advanceY), g.width, g.rows, g.left, g.top,
              Ratio(p.x, width), Ratio(p.y, height))
  }

  /** The table `t` after the packing pass has visited the codes below `n`,
      in an atlas `width` by `height`: each accepted code's slot written. */
  function Filled(face: Face, n: int, width: nat, height: nat, t: seq<Character>): (r: seq<Character>)
    requires n <= TableSize && |t| == TableSize
    ensures |r| == TableSize
    decreases n - FirstCode
  {
    if n <= FirstCode then t
    else
      var prev := Filled(face, n - 1, width, height, t);
      if Included(face, n - 1) then prev[n - 1 := Slot(face, n - 1, width, height)] else prev
  }

  /** Slot `c` of the filled table: written when `c` is an accepted code
      already visited, as in `t` otherwise. */
  lemma {:induction false} FilledAt(face: Face, n: int, width: nat, height: nat, t: seq<Character>, c: int)
    requires n <= TableSize && |t| == TableSize && 0 <= c < TableSize
    ensures Filled(face, n, width, height, t)[c]
         == if FirstCode <= c < n && Included(face, c) then Slot(face, c, width, height) else t[c]
    decreases n - FirstCode
  {
    if n > FirstCode {
      FilledAt(face, n - 1, width, height, t, c);
    }
  }

  /** The table a freshly initialised renderer holds once the atlas is
      built from `face`. */
  function Built(face: Face): (t: seq<Character>)
    ensures |t| == TableSize
  {
    Filled(face, EndCode, AtlasWidth(AllGlyphs(face), 0, 0), AtlasHeight(AllGlyphs(face), 0, 0), Blank())
  }

  // ---------------------------------------------------------------------
  // From codes to the packing of the accepted glyphs

  /** The glyphs accepted before code `c` are a prefix of those accepted
      before any later `n`. */
  lemma {:induction false} IncludedPrefix(face: Face, c: int, n: int)
    requires c <= n
    ensures |IncludedGlyphs(face, c)| <= |IncludedGlyphs(face, n)|
    ensures IncludedGlyphs(face, n)[..|IncludedGlyphs(face, c)|] == IncludedGlyphs(face, c)
    decreases n - c
  {
    if c < n {
      IncludedPrefix(face, c, n - 1);
      if n - 1 >= FirstCode {
        var pre := IncludedGlyphs(face, n - 1);
        var k := |IncludedGlyphs(face, c)|;
        assert IncludedGlyphs(face, n)[..|pre|] == pre;
        assert IncludedGlyphs(face, n)[..k] == pre[..k];
      }
    }
  }

  /** An accepted code's glyph is the one at index `Index(face, c)` of the
      packing, and the slot records that index's position. */
  function Index(face: Face, c: int): nat
  {
    |IncludedGlyphs(face, c)|
  }

  lemma SlotIsPackedGlyph(face: Face, c: int)
    requires FirstCode <= c < EndCode && Included(face, c)
    ensures Index(face, c) < |AllGlyphs(face)|
    ensures AllGlyphs(face)[Index(face, c)] == face[c].glyph
    ensures Position(AllGlyphs(face), Index(face, c)) == Place(Packed(IncludedGlyphs(face, c)), face[c].glyph)
  {
    IncludedPrefix(face, c + 1, EndCode);
    var all, k := AllGlyphs(face), Index(face, c);
    assert IncludedGlyphs(face, c + 1) == IncludedGlyphs(face, c) + [face[c].glyph];
    assert all[..k + 1][k] == all[k];
    assert all[..k] == all[..k + 1][..k];
  }

  /** Codes accepted in ascending order are packed in ascending order. */
  lemma IndexIncreases(face: Face, c1: int, c2: int)
    requires FirstCode <= c1 < c2 && Included(face, c1)
    ensures Index(face, c1) < Index(face, c2)
  {
    IncludedPrefix(face, c1 + 1, c2);
  }

  // ---------------------------------------------------------------------
  // Properties of the built table

  lemma BuiltAt(face: Face, c: int)
    requires 0 <= c < TableSize
    ensures Built(face)[c] == if FirstCode <= c && Included(face, c)
                              then Slot(face, c, AtlasWidth(AllGlyphs(face), 0, 0), AtlasHeight(AllGlyphs(face), 0, 0))
                              else Zero
  {
    FilledAt(face, EndCode, AtlasWidth(AllGlyphs(face), 0, 0), AtlasHeight(AllGlyphs(face), 0, 0), Blank(), c);
  }

  /** Every accepted code's atlas rectangle lies inside the atlas: its
      offsets are over the atlas width and height, it ends at least one
      column before the right edge and no lower than the bottom edge. */
  lemma BuiltInAtlas(face: Face, c: int)
    requires FirstCode <= c < EndCode && Included(face, c)
    ensures var e := Built(face)[c];
      && e.tx.den == AtlasWidth(AllGlyphs(face), 0, 0)
      && e.ty.den == AtlasHeight(AllGlyphs(face), 0, 0)
      && 0 <= e.tx.num && e.tx.num + e.bw < e.tx.den
      && 0 <= e.ty.num && e.ty.num + e.bh <= e.ty.den
  {
    BuiltAt(face, c);
    SlotIsPackedGlyph(face, c);
    InBounds(AllGlyphs(face), Index(face, c), 0, 0);
  }

  /** The atlas rectangles of two different accepted codes share no texel;
      the lower code's lies above the other's or, in the same row, left of
      it with a padding column between. */
  lemma BuiltNoOverlap(face: Face, c1: int, c2: int)
    requires FirstCode <= c1 < c2 < EndCode && Included(face, c1) && Included(face, c2)
    ensures var e1, e2 := Built(face)[c1], Built(face)[c2];
      || e1.ty.num + e1.bh <= e2.ty.num
      || (e1.ty.num == e2.ty.num && e1.tx.num + e1.bw + 1 <= e2.tx.num)
  {
    BuiltAt(face, c1);
    BuiltAt(face, c2);
    SlotIsPackedGlyph(face, c1);
    SlotIsPackedGlyph(face, c2);
    IndexIncreases(face, c1, c2);
    Separated(AllGlyphs(face), Index(face, c1), Index(face, c2));
  }

  /** An accepted code records FreeType's metrics: the advances in whole
      pixels, the bitmap size and bearings unchanged. */
  lemma BuiltMetrics(face: Face, c: int)
    requires FirstCode <= c < EndCode && Included(face, c)
    ensures var e, g := Built(face)[c], face[c].glyph;
      && e.ax * 64 <= g.advanceX < e.ax * 64 + 64
      && e.ay * 64 <= g.advanceY < e.ay * 64 + 64
      && e.bw == g.width && e.bh == g.rows && e.bl == g.left && e.bt == g.top
  {
    BuiltAt(face, c);
  }

  /** A code outside 32..127, skipped, or whose glyph failed to load keeps
      its zero slot, so its advance is zero. */
  lemma BuiltUnplacedZero(face: Face, c: int)
    requires 0 <= c < TableSize
    requires !(FirstCode <= c && Included(face, c))
    ensures Built(face)[c] == Zero && Built(face)[c].ax == 0
  {
    BuiltAt(face, c);
  }

  /** Every glyph the passes accept comes from an accepted code below `n`. */
  lemma {:induction false} IncludedSource(face: Face, n: int, k: int) returns (c: int)
    requires 0 <= k < |IncludedGlyphs(face, n)|
    ensures FirstCode <= c < n && Included(face, c)
    ensures IncludedGlyphs(face, n)[k] == face[c].glyph
    decreases n - FirstCode
  {
    var pre := IncludedGlyphs(face, n - 1);
    var last := if Included(face, n - 1) then [face[n - 1].glyph] else [];
    assert IncludedGlyphs(face, n) == pre + last;
    if k < |pre| {
      c := IncludedSource(face, n - 1, k);
    } else {
      c := n - 1;
    }
  }

  /** The atlas is narrower than 1024 texels exactly when every accepted
      glyph is, with its padding column: a wider glyph gets a row of its own
      that is at least 1024 wide. */
  lemma AtlasBelowMaxWidth(face: Face)
    ensures AtlasWidth(AllGlyphs(face), 0, 0) < MaxWidth
        <==> forall c :: FirstCode <= c < EndCode && Included(face, c) ==> face[c].glyph.width + 1 < MaxWidth
  {
    var all := AllGlyphs(face);
    if forall c :: FirstCode <= c < EndCode && Included(face, c) ==> face[c].glyph.width + 1 < MaxWidth {
      forall k | 0 <= k < |all|
        ensures all[k].width + 1 < MaxWidth
      {
        var c := IncludedSource(face, EndCode, k);
      }
      WidthBelowMax(all, 0, 0);
    }
    forall c | FirstCode <= c < EndCode && Included(face, c)
      ensures face[c].glyph.width + 1 <= AtlasWidth(all, 0, 0)
    {
      SlotIsPackedGlyph(face, c);
      WithinMeasuredWidth(all, Index(face, c), 0, 0);
    }
  }
}
