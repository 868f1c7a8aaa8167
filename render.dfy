/**
 * fr_RenderString (font-render.c): a measuring pass that finds the bounding box of the glyphs of a
 * string, a compositing pass that copies each glyph's atlas rows into a zeroed RGBA canvas, and a
 * shading pass that turns the canvas into `height` lines of `width` terminal cells.
 *
 * The text is the sequence of `char` values before the terminating NUL; each is looked up by its
 * `wint_t` conversion. The pen and the box are kept as integers; the C unsigned arithmetic they pass
 * through is exact under `Drawable`, the precondition that states the ranges the code relies on.
 */
module Render {
  import opened Bytes
  import opened FontLoad
  import opened Palette

  /** fr_FindGlyph on the character: the record the binary search lands on, if any. */
  function Lookup(glyphs: seq<GlyphInfo>, c: int): (r: Option<GlyphInfo>)
    ensures r.Some? ==> r.value in glyphs && Key(r.value.ch) == Key(c)
  {
    match Search(glyphs, Key(c), 0, |glyphs|)
    case None => None
    case Some(i) => Some(glyphs[i])
  }

  /** How far the pen moves over one character: the glyph's advance, or nothing when there is no glyph. */
  function Advance(glyphs: seq<GlyphInfo>, c: int): int {
    match Lookup(glyphs, c)
    case None => 0
    case Some(g) => g.xOffset
  }

  /** The pen position after `text`, starting from 0. */
  function Pen(glyphs: seq<GlyphInfo>, text: seq<int>): int {
    if text == [] then 0 else Pen(glyphs, text[..|text| - 1]) + Advance(glyphs, text[|text| - 1])
  }

  /** A glyph found in the text, with the pen position it is drawn at. */
  datatype Mark = Mark(g: GlyphInfo, pen: int)

  /** The glyphs found in the text, in text order, each with its pen; characters without a glyph leave no mark. */
  function Placed(glyphs: seq<GlyphInfo>, text: seq<int>): (ms: seq<Mark>)
    ensures |ms| <= |text|
  {
    if text == [] then []
    else
      var prefix := text[..|text| - 1];
      match Lookup(glyphs, text[|text| - 1])
      case None => Placed(glyphs, prefix)
      case Some(g) => Placed(glyphs, prefix) + [Mark(g, Pen(glyphs, prefix))]
  }

  /** When every character has a glyph, mark i is character i's glyph at the pen reached after the characters before it. */
  lemma {:induction false} PlacedEach(glyphs: seq<GlyphInfo>, text: seq<int>)
    requires forall i :: 0 <= i < |text| ==> Lookup(glyphs, text[i]).Some?
    ensures |Placed(glyphs, text)| == |text|
    ensures forall i :: 0 <= i < |text| ==> Placed(glyphs, text)[i] == Mark(Lookup(glyphs, text[i]).value, Pen(glyphs, text[..i]))
  {
    if text != [] {
      var n := |text| - 1;
      var prefix := text[..n];
      PlacedEach(glyphs, prefix);
      var g := Lookup(glyphs, text[n]).value;
      assert Placed(glyphs, text) == Placed(glyphs, prefix) + [Mark(g, Pen(glyphs, prefix))];
      forall i | 0 <= i < |text|
        ensures Placed(glyphs, text)[i] == Mark(Lookup(glyphs, text[i]).value, Pen(glyphs, text[..i]))
      {
        if i < n {
          assert prefix[i] == text[i] && prefix[..i] == text[..i];
        } else {
          assert text[..i] == prefix;
        }
      }
    }
  }

  /** The marks of a prefix of the text are a prefix of the marks of the text. */
  lemma {:induction false} PlacedPrefix(glyphs: seq<GlyphInfo>, text: seq<int>, i: nat)
    requires i <= |text|
    ensures Placed(glyphs, text[..i]) <= Placed(glyphs, text)
    decreases |text| - i
  {
    if i < |text| {
      PlacedPrefix(glyphs, text, i + 1);
      assert text[..i + 1][..i] == text[..i];
    } else {
      assert text[..i] == text;
    }
  }

  /**
   * A character the font has no glyph for is skipped: taking it out of the text changes neither the
   * pen nor any mark, so neither pass sees it.
   */
  lemma {:induction false} UnknownSkipped(glyphs: seq<GlyphInfo>, a: seq<int>, c: int, b: seq<int>)
    requires Lookup(glyphs, c).None?
    ensures Pen(glyphs, a + [c] + b) == Pen(glyphs, a + b)
    ensures Placed(glyphs, a + [c] + b) == Placed(glyphs, a + b)
    decreases |b|
  {
    var t, u := a + [c] + b, a + b;
    if b == [] {
      assert t[..|t| - 1] == a && t[|t| - 1] == c && u == a;
      assert Advance(glyphs, c) == 0;
    } else {
      var b', last := b[..|b| - 1], b[|b| - 1];
      assert t[..|t| - 1] == a + [c] + b' && t[|t| - 1] == last;
      assert u[..|u| - 1] == a + b' && u[|u| - 1] == last;
      UnknownSkipped(glyphs, a, c, b');
    }
  }

  /** The box edge above the baseline: 0, lowered to -y of any glyph that reaches higher. */
  function Top(ms: seq<Mark>): int {
    if ms == [] then 0
    else
      var t, g := Top(ms[..|ms| - 1]), ms[|ms| - 1].g;
      if -g.y < t then -g.y else t
  }

  /** The box edge below the baseline: 0, raised to height - y of any glyph that reaches lower. */
  function Bottom(ms: seq<Mark>): int {
    if ms == [] then 0
    else
      var b, g := Bottom(ms[..|ms| - 1]), ms[|ms| - 1].g;
      if g.height - g.y > b then g.height - g.y else b
  }

  /** How far right a mark reaches: its pen plus its width, less its x bearing. */
  function Reach(m: Mark): int {
    m.pen + m.g.width - m.g.x
  }

  /** The right box edge: 0, moved out to the reach of any glyph that reaches further. */
  function Right(ms: seq<Mark>): int {
    if ms == [] then 0
    else
      var r, m := Right(ms[..|ms| - 1]), ms[|ms| - 1];
      if Reach(m) > r then Reach(m) else r
  }

  /** The box edges after one more mark. */
  lemma BoxStep(ms: seq<Mark>, m: Mark)
    ensures Top(ms + [m]) == if -m.g.y < Top(ms) then -m.g.y else Top(ms)
    ensures Bottom(ms + [m]) == if m.g.height - m.g.y > Bottom(ms) then m.g.height - m.g.y else Bottom(ms)
    ensures Right(ms + [m]) == if Reach(m) > Right(ms) then Reach(m) else Right(ms)
  {
    assert (ms + [m])[..|ms|] == ms;
  }

  /** Top is the least of 0 and -y over the marks, and it is one of them. */
  lemma {:induction false} TopIsLeast(ms: seq<Mark>)
    ensures Top(ms) <= 0
    ensures forall k :: 0 <= k < |ms| ==> Top(ms) <= -ms[k].g.y
    ensures Top(ms) == 0 || exists k :: 0 <= k < |ms| && Top(ms) == -ms[k].g.y
  {
    if ms != [] {
      TopIsLeast(ms[..|ms| - 1]);
    }
  }

  /** Bottom is the greatest of 0 and height - y over the marks, and it is one of them. */
  lemma {:induction false} BottomIsGreatest(ms: seq<Mark>)
    ensures Bottom(ms) >= 0
    ensures forall k :: 0 <= k < |ms| ==> Bottom(ms) >= ms[k].g.height - ms[k].g.y
    ensures Bottom(ms) == 0 || exists k :: 0 <= k < |ms| && Bottom(ms) == ms[k].g.height - ms[k].g.y
  {
    if ms != [] {
      BottomIsGreatest(ms[..|ms| - 1]);
    }
  }

  /** Right is the greatest of 0 and the reach of every mark, and it is one of them. */
  lemma {:induction false} RightIsGreatest(ms: seq<Mark>)
    ensures Right(ms) >= 0
    ensures forall k :: 0 <= k < |ms| ==> Right(ms) >= Reach(ms[k])
    ensures Right(ms) == 0 || exists k :: 0 <= k < |ms| && Right(ms) == Reach(ms[k])
  {
    if ms != [] {
      RightIsGreatest(ms[..|ms| - 1]);
    }
  }

  /** What the code needs of one glyph at its pen: a rectangle inside the atlas, and a reach that C's unsigned and signed arithmetic carry exactly. */
  predicate SaneAt(m: Mark, size: int) {
    0 <= m.g.width && 0 <= m.g.height && 0 <= m.g.u && 0 <= m.g.v
    && m.g.u + m.g.width <= size && m.g.v + m.g.height <= size
    && 0 <= m.pen - m.g.x && Reach(m) < 0x8000_0000
  }

  /** The atlas holds Area(size, size) bytes and every glyph found is sane at its pen. */
  ghost predicate Sane(font: Font, text: seq<int>) {
    var ms := Placed(font.glyphs, text);
    0 <= font.atlasSize && |font.bitmap| == Area(font.atlasSize, font.atlasSize)
    && forall k :: 0 <= k < |ms| ==> SaneAt(ms[k], font.atlasSize)
  }

  /** A sane text whose canvas byte count, 4 * width * height, fits in `unsigned int`. */
  ghost predicate Drawable(font: Font, text: seq<int>) {
    var ms := Placed(font.glyphs, text);
    Sane(font, text) && 4 * Right(ms) * (Bottom(ms) - Top(ms)) < 0x1_0000_0000
  }

  /** The canvas: `width` texels (4 bytes each) by `height` rows, whose row 0 is `top` above the baseline. */
  datatype Frame = Frame(top: int, width: nat, height: nat)

  /** The frame fr_RenderString sizes for the marks: left stays 0, so the width is the right edge. */
  function FrameOf(ms: seq<Mark>): (f: Frame)
    requires Right(ms) >= 0 && Bottom(ms) >= Top(ms)
  {
    Frame(Top(ms), Right(ms), Bottom(ms) - Top(ms))
  }

  /**
   * Offset of byte `col` of row `row` in an image `width` texels (4 * width bytes) wide, counted row by
   * row; OffsetIsProduct gives the closed form row * 4 * width + col the code computes.
   */
  function Offset(width: nat, row: int, col: int): (o: int)
    ensures o >= col
    decreases row
  {
    if row <= 0 then col else Offset(width, row - 1, col) + 4 * width
  }

  /** Bytes in an image of `height` rows of `width` texels. */
  function Area(width: nat, height: nat): nat {
    Offset(width, height, 0)
  }

  /** The closed form of Offset. */
  lemma {:induction false} OffsetIsProduct(width: nat, row: nat, col: int)
    ensures Offset(width, row, col) == row * (4 * width) + col
  {
    if row > 0 {
      OffsetIsProduct(width, row - 1, col);
    }
  }

  /** The byte count of an image, as the code computes it. */
  lemma AreaIsProduct(width: nat, height: nat)
    ensures Area(width, height) == 4 * width * height
  {
    OffsetIsProduct(width, height, 0);
  }

  /** The byte offset the shading loop computes for texel (y, x). */
  lemma TexelOffset(width: nat, y: nat, x: nat)
    ensures (y * width + x) * 4 == Offset(width, y, 4 * x)
  {
    OffsetIsProduct(width, y, 4 * x);
  }

  /** Moving along a row adds to the offset; each row starts 4 * width bytes after the one before. */
  lemma {:induction false} OffsetShift(width: nat, row: int, col: int)
    ensures Offset(width, row, col) == Offset(width, row, 0) + col
    decreases row
  {
    if row > 0 {
      OffsetShift(width, row - 1, col);
    }
  }

  /** Later rows start no earlier. */
  lemma {:induction false} OffsetMonotone(width: nat, row0: int, row: int)
    requires 0 <= row0 <= row
    ensures Offset(width, row0, 0) <= Offset(width, row, 0)
    decreases row
  {
    if row0 < row {
      OffsetMonotone(width, row0, row - 1);
    }
  }

  /** A glyph at its pen lies inside the frame, and its rectangle inside an atlas `size` texels wide. */
  predicate FitsAt(m: Mark, f: Frame, size: int) {
    0 <= m.g.width && 0 <= m.g.height && 0 <= m.g.u && 0 <= m.g.v
    && m.g.u + m.g.width <= size && m.g.v + m.g.height <= size
    && 0 <= m.pen - m.g.x && Reach(m) <= f.width
    && f.top <= -m.g.y && -m.g.y + m.g.height <= f.top + f.height
  }

  /** Every mark fits the frame. */
  ghost predicate AllFit(ms: seq<Mark>, f: Frame, size: int) {
    forall k :: 0 <= k < |ms| ==> FitsAt(ms[k], f, size)
  }

  /** In a sane text every glyph found fits the frame fr_RenderString sizes for it. */
  lemma SaneFits(font: Font, text: seq<int>)
    requires Sane(font, text)
    ensures var ms := Placed(font.glyphs, text);
      Right(ms) >= 0 && Bottom(ms) >= Top(ms) && AllFit(ms, FrameOf(ms), font.atlasSize)
  {
    var ms := Placed(font.glyphs, text);
    TopIsLeast(ms);
    BottomIsGreatest(ms);
    RightIsGreatest(ms);
  }

  /** A run of n bytes from column `col` of row `row` ends inside an image of `height` rows of `width` texels. */
  lemma RunInImage(width: nat, height: nat, row: int, col: int, n: nat)
    requires 0 <= row < height && 0 <= col && col + n <= 4 * width
    ensures 0 <= Offset(width, row, col) && Offset(width, row, col) + n <= Area(width, height)
  {
    OffsetShift(width, row, col);
    OffsetMonotone(width, row + 1, height);
  }

  /** Byte (row, col) lies in the run of n bytes at (row0, col0) exactly when it is in that row and those columns. */
  lemma InRun(width: nat, row: int, col: int, row0: int, col0: int, n: nat)
    requires 0 <= row && 0 <= row0
    requires 0 <= col < 4 * width && 0 <= col0 && col0 + n <= 4 * width
    ensures Offset(width, row0, col0) <= Offset(width, row, col) < Offset(width, row0, col0) + n
        <==> row == row0 && col0 <= col < col0 + n
  {
    OffsetShift(width, row, col);
    OffsetShift(width, row0, col0);
    if row < row0 {
      OffsetMonotone(width, row + 1, row0);
    } else if row0 < row {
      OffsetMonotone(width, row0 + 1, row);
    }
  }

  /** Output row of row k of a mark: -y - top + k. */
  function RowOf(m: Mark, f: Frame, k: int): int {
    -m.g.y - f.top + k
  }

  /** Byte column where a mark starts: 4 (pen - x). */
  function ColOf(m: Mark): int {
    4 * (m.pen - m.g.x)
  }

  /** Atlas offset of byte j of row k of a mark's rectangle. */
  function AtlasAt(m: Mark, size: nat, k: int, j: int): int {
    Offset(size, m.g.v + k, 4 * m.g.u + j)
  }

  /** Canvas offset where row k of a fitting mark goes: ((-y - top + k) * width + pen - x) * 4. */
  function DestRow(m: Mark, f: Frame, size: int, k: int): (o: nat)
    requires FitsAt(m, f, size) && 0 <= k < m.g.height
    ensures o == Offset(f.width, RowOf(m, f, k), ColOf(m)) && o + 4 * m.g.width <= Area(f.width, f.height)
  {
    RunInImage(f.width, f.height, RowOf(m, f, k), ColOf(m), 4 * m.g.width);
    Offset(f.width, RowOf(m, f, k), ColOf(m))
  }

  /** Atlas offset where row k of a fitting mark's rectangle starts: ((v + k) * size + u) * 4. */
  function SrcRow(m: Mark, f: Frame, size: nat, k: int): (o: nat)
    requires FitsAt(m, f, size) && 0 <= k < m.g.height
    ensures o == AtlasAt(m, size, k, 0) && o + 4 * m.g.width <= Area(size, size)
  {
    RunInImage(size, size, m.g.v + k, 4 * m.g.u, 4 * m.g.width);
    AtlasAt(m, size, k, 0)
  }

  /**
   * Row k of a mark copied: atlas row v + k, bytes 4 u .. 4 (u + width) - 1, written over output
   * row -y - top + k from byte 4 (pen - x) on.
   */
  function PaintRow(canvas: seq<byte>, atlas: seq<byte>, size: nat, m: Mark, f: Frame, k: nat): (c: seq<byte>)
    requires |canvas| == Area(f.width, f.height) && |atlas| == Area(size, size)
    requires FitsAt(m, f, size) && k < m.g.height
    ensures |c| == |canvas|
  {
    var src := SrcRow(m, f, size, k);
    Splice(canvas, DestRow(m, f, size, k), atlas[src..src + 4 * m.g.width])
  }

  /** The canvas after the first `rows` rows of a mark are copied, in order. */
  function Paint(canvas: seq<byte>, atlas: seq<byte>, size: nat, m: Mark, f: Frame, rows: nat): (c: seq<byte>)
    requires |canvas| == Area(f.width, f.height) && |atlas| == Area(size, size)
    requires FitsAt(m, f, size) && rows <= m.g.height
    ensures |c| == |canvas|
  {
    if rows == 0 then canvas
    else PaintRow(Paint(canvas, atlas, size, m, f, rows - 1), atlas, size, m, f, rows - 1)
  }

  /** Painting one more row is copying that row over what the rows before it left. */
  lemma PaintNext(canvas: seq<byte>, atlas: seq<byte>, size: nat, m: Mark, f: Frame, rows: nat)
    requires |canvas| == Area(f.width, f.height) && |atlas| == Area(size, size)
    requires FitsAt(m, f, size) && rows < m.g.height
    ensures Paint(canvas, atlas, size, m, f, rows + 1) == PaintRow(Paint(canvas, atlas, size, m, f, rows), atlas, size, m, f, rows)
  {
  }

  /** Canvas byte (row, col) is among the first `rows` rows of a mark. */
  predicate Covered(m: Mark, f: Frame, rows: int, row: int, col: int) {
    RowOf(m, f, 0) <= row < RowOf(m, f, rows) && ColOf(m) <= col < ColOf(m) + 4 * m.g.width
  }

  /** A canvas byte in the run row k is copied to receives the atlas byte it is copied from. */
  lemma PaintRowHit(canvas: seq<byte>, atlas: seq<byte>, size: nat, m: Mark, f: Frame, k: nat, row: int, col: int)
    requires |canvas| == Area(f.width, f.height) && |atlas| == Area(size, size)
    requires FitsAt(m, f, size) && k < m.g.height
    requires row == RowOf(m, f, k) && ColOf(m) <= col < ColOf(m) + 4 * m.g.width
    ensures 0 <= Offset(f.width, row, col) < |canvas| && 0 <= AtlasAt(m, size, k, col - ColOf(m)) < |atlas|
    ensures PaintRow(canvas, atlas, size, m, f, k)[Offset(f.width, row, col)] == atlas[AtlasAt(m, size, k, col - ColOf(m))]
  {
    var o, d, src, j := Offset(f.width, row, col), DestRow(m, f, size, k), SrcRow(m, f, size, k), col - ColOf(m);
    assert o == d + j by {
      OffsetShift(f.width, row, col);
      OffsetShift(f.width, row, ColOf(m));
    }
    assert AtlasAt(m, size, k, j) == src + j by {
      OffsetShift(size, m.g.v + k, 4 * m.g.u + j);
      OffsetShift(size, m.g.v + k, 4 * m.g.u);
    }
  }

  /** A canvas byte outside the run row k is copied to keeps its value. */
  lemma PaintRowMiss(canvas: seq<byte>, atlas: seq<byte>, size: nat, m: Mark, f: Frame, k: nat, row: int, col: int)
    requires |canvas| == Area(f.width, f.height) && |atlas| == Area(size, size)
    requires FitsAt(m, f, size) && k < m.g.height
    requires 0 <= row < f.height && 0 <= col < 4 * f.width
    requires !(row == RowOf(m, f, k) && ColOf(m) <= col < ColOf(m) + 4 * m.g.width)
    ensures 0 <= Offset(f.width, row, col) < |canvas|
    ensures PaintRow(canvas, atlas, size, m, f, k)[Offset(f.width, row, col)] == canvas[Offset(f.width, row, col)]
  {
    RunInImage(f.width, f.height, row, col, 1);
    InRun(f.width, row, col, RowOf(m, f, k), ColOf(m), 4 * m.g.width);
  }

  /** Each canvas byte after Paint: the atlas byte it is copied from if the mark covers it, else what it was. */
  lemma {:induction false} PaintAt(canvas: seq<byte>, atlas: seq<byte>, size: nat, m: Mark, f: Frame, rows: nat, row: int, col: int)
    requires |canvas| == Area(f.width, f.height) && |atlas| == Area(size, size)
    requires FitsAt(m, f, size) && rows <= m.g.height
    requires 0 <= row < f.height && 0 <= col < 4 * f.width
    ensures 0 <= Offset(f.width, row, col) < |canvas|
    ensures Covered(m, f, rows, row, col) ==> 0 <= AtlasAt(m, size, row - RowOf(m, f, 0), col - ColOf(m)) < |atlas|
    ensures Paint(canvas, atlas, size, m, f, rows)[Offset(f.width, row, col)]
         == if Covered(m, f, rows, row, col) then atlas[AtlasAt(m, size, row - RowOf(m, f, 0), col - ColOf(m))] else canvas[Offset(f.width, row, col)]
    decreases rows
  {
    RunInImage(f.width, f.height, row, col, 1);
    if rows > 0 {
      var k := rows - 1;
      var prev, o := Paint(canvas, atlas, size, m, f, k), Offset(f.width, row, col);
      PaintNext(canvas, atlas, size, m, f, k);
      if row == RowOf(m, f, k) && ColOf(m) <= col < ColOf(m) + 4 * m.g.width {
        PaintRowHit(prev, atlas, size, m, f, k, row, col);
        assert row - RowOf(m, f, 0) == k && Covered(m, f, rows, row, col);
        assert Paint(canvas, atlas, size, m, f, rows)[o] == atlas[AtlasAt(m, size, k, col - ColOf(m))];
      } else {
        PaintRowMiss(prev, atlas, size, m, f, k, row, col);
        PaintAt(canvas, atlas, size, m, f, k, row, col);
        assert Covered(m, f, rows, row, col) == Covered(m, f, k, row, col);
        assert Paint(canvas, atlas, size, m, f, rows)[o] == prev[o];
      }
    }
  }

  /** The canvas of the compositing pass: zeros (calloc), then each mark, in text order, painted over what is there. */
  function Canvas(atlas: seq<byte>, size: nat, ms: seq<Mark>, f: Frame): (c: seq<byte>)
    requires |atlas| == Area(size, size) && AllFit(ms, f, size)
    ensures |c| == Area(f.width, f.height)
  {
    if ms == [] then Zeros(Area(f.width, f.height))
    else
      var m := ms[|ms| - 1];
      Paint(Canvas(atlas, size, ms[..|ms| - 1], f), atlas, size, m, f, m.g.height)
  }

  /** The canvas after one more mark is that mark painted, all its rows, over the canvas before it. */
  lemma CanvasStep(atlas: seq<byte>, size: nat, ms: seq<Mark>, m: Mark, f: Frame)
    requires |atlas| == Area(size, size) && AllFit(ms, f, size) && FitsAt(m, f, size)
    ensures AllFit(ms + [m], f, size)
    ensures Canvas(atlas, size, ms + [m], f) == Paint(Canvas(atlas, size, ms, f), atlas, size, m, f, m.g.height)
  {
    assert (ms + [m])[..|ms|] == ms;
    assert (ms + [m])[|ms|] == m;
  }

  /** Mark k covers canvas byte (row, col). */
  predicate CoveredBy(ms: seq<Mark>, f: Frame, k: int, row: int, col: int) {
    0 <= k < |ms| && Covered(ms[k], f, ms[k].g.height, row, col)
  }

  /** Mark k is the last mark that covers canvas byte (row, col): the one drawn over it last. */
  ghost predicate TopCover(ms: seq<Mark>, f: Frame, k: int, row: int, col: int) {
    CoveredBy(ms, f, k, row, col) && forall l :: k < l ==> !CoveredBy(ms, f, l, row, col)
  }

  /** The marks of a prefix cover a byte exactly when the same marks do in the whole sequence. */
  lemma CoveredPrefix(ms: seq<Mark>, n: nat, f: Frame, row: int, col: int)
    requires n <= |ms|
    ensures forall l :: CoveredBy(ms[..n], f, l, row, col) <==> l < n && CoveredBy(ms, f, l, row, col)
  {
  }

  /** A canvas byte that no mark covers is still 0 after compositing. */
  lemma {:induction false} CanvasBlank(atlas: seq<byte>, size: nat, ms: seq<Mark>, f: Frame, row: int, col: int)
    requires |atlas| == Area(size, size) && AllFit(ms, f, size)
    requires 0 <= row < f.height && 0 <= col < 4 * f.width
    requires forall k :: !CoveredBy(ms, f, k, row, col)
    ensures 0 <= Offset(f.width, row, col) < Area(f.width, f.height)
    ensures Canvas(atlas, size, ms, f)[Offset(f.width, row, col)] == 0
    decreases |ms|
  {
    RunInImage(f.width, f.height, row, col, 1);
    if ms != [] {
      var n := |ms| - 1;
      var m, prefix := ms[n], ms[..n];
      CoveredPrefix(ms, n, f, row, col);
      CanvasBlank(atlas, size, prefix, f, row, col);
      assert !CoveredBy(ms, f, n, row, col);
      PaintAt(Canvas(atlas, size, prefix, f), atlas, size, m, f, m.g.height, row, col);
    }
  }

  /** A canvas byte a fitting mark covers is copied from a byte inside the atlas. */
  lemma CoveredSource(m: Mark, f: Frame, size: nat, row: int, col: int)
    requires FitsAt(m, f, size) && Covered(m, f, m.g.height, row, col)
    ensures 0 <= AtlasAt(m, size, row - RowOf(m, f, 0), col - ColOf(m)) < Area(size, size)
  {
    RunInImage(size, size, m.g.v + row - RowOf(m, f, 0), 4 * m.g.u + col - ColOf(m), 1);
  }

  /**
   * A canvas byte whose last covering mark is mark k holds, after compositing, the atlas byte mark k
   * copies there.
   */
  lemma {:induction false} CanvasTop(atlas: seq<byte>, size: nat, ms: seq<Mark>, f: Frame, k: int, row: int, col: int)
    requires |atlas| == Area(size, size) && AllFit(ms, f, size)
    requires 0 <= row < f.height && 0 <= col < 4 * f.width
    requires TopCover(ms, f, k, row, col)
    ensures 0 <= Offset(f.width, row, col) < Area(f.width, f.height)
    ensures 0 <= AtlasAt(ms[k], size, row - RowOf(ms[k], f, 0), col - ColOf(ms[k])) < |atlas|
    ensures Canvas(atlas, size, ms, f)[Offset(f.width, row, col)] == atlas[AtlasAt(ms[k], size, row - RowOf(ms[k], f, 0), col - ColOf(ms[k]))]
    decreases |ms|
  {
    RunInImage(f.width, f.height, row, col, 1);
    CoveredSource(ms[k], f, size, row, col);
    var n := |ms| - 1;
    var m, prefix, o := ms[n], ms[..n], Offset(f.width, row, col);
    var before := Canvas(atlas, size, prefix, f);
    assert Canvas(atlas, size, ms, f) == Paint(before, atlas, size, m, f, m.g.height);
    PaintAt(before, atlas, size, m, f, m.g.height, row, col);
    if k < n {
      assert !Covered(m, f, m.g.height, row, col) by {
        assert !CoveredBy(ms, f, n, row, col);
      }
      assert TopCover(prefix, f, k, row, col) by {
        CoveredPrefix(ms, n, f, row, col);
      }
      assert prefix[k] == ms[k];
      CanvasTop(atlas, size, prefix, f, k, row, col);
      assert Canvas(atlas, size, ms, f)[o] == before[o];
    } else {
      assert k == n && Covered(m, f, m.g.height, row, col);
    }
  }

  /** One terminal cell: the palette entry chosen and the ramp character printed after its SGR sequence. */
  datatype Cell = Cell(index: nat, shade: char)

  /** The cell fr_PutRGB prints for texel (y, x) of a canvas `width` texels wide. */
  ghost predicate ShadeOf(canvas: seq<byte>, width: nat, y: nat, x: nat, cell: Cell) {
    var o := Offset(width, y, 4 * x);
    o + 3 <= |canvas|
    && IsNearest(Swatches, cell.index, canvas[o], canvas[o + 1], canvas[o + 2])
    && Score(Swatches[cell.index], canvas[o], canvas[o + 1], canvas[o + 2]) < 256
    && cell.shade == RampChar(Score(Swatches[cell.index], canvas[o], canvas[o + 1], canvas[o + 2]))
  }

  /**
   * One pass of either loop of fr_RenderString over character i, given what the binary search
   * returned for it: no glyph leaves marks and pen as they were; a glyph adds its mark at the
   * current pen, the next mark of the whole text, and moves the pen by its advance.
   */
  lemma NextMark(glyphs: seq<GlyphInfo>, text: seq<int>, i: nat, found: Option<nat>)
    requires i < |text| && found == Search(glyphs, Key(text[i]), 0, |glyphs|)
    ensures Placed(glyphs, text[..i + 1]) <= Placed(glyphs, text)
    ensures found.None? ==>
      Placed(glyphs, text[..i + 1]) == Placed(glyphs, text[..i]) && Pen(glyphs, text[..i + 1]) == Pen(glyphs, text[..i])
    ensures found.Some? ==>
      var m := Mark(glyphs[found.value], Pen(glyphs, text[..i]));
      Placed(glyphs, text[..i + 1]) == Placed(glyphs, text[..i]) + [m]
      && Pen(glyphs, text[..i + 1]) == Pen(glyphs, text[..i]) + glyphs[found.value].xOffset
      && |Placed(glyphs, text[..i])| < |Placed(glyphs, text)| && Placed(glyphs, text)[|Placed(glyphs, text[..i])|] == m
  {
    assert text[..i + 1][..i] == text[..i];
    PlacedPrefix(glyphs, text, i + 1);
  }

  /** The measuring pass: the pen and the box edges over every glyph found. */
  method Measure(font: Font, text: seq<int>) returns (left: int, right: int, top: int, bottom: int)
    requires Sane(font, text)
    ensures var ms := Placed(font.glyphs, text);
      left == 0 && right == Right(ms) && top == Top(ms) && bottom == Bottom(ms)
  {
    ghost var all := Placed(font.glyphs, text);
    ghost var ms: seq<Mark> := [];
    var x := 0;
    left, right, top, bottom := 0, 0, 0, 0;
    for i := 0 to |text|
      invariant x == Pen(font.glyphs, text[..i]) && ms == Placed(font.glyphs, text[..i]) && ms <= all
      invariant left == 0 && right == Right(ms) && top == Top(ms) && bottom == Bottom(ms)
      invariant 0 <= right < 0x8000_0000
    {
      var found := FindGlyph(font.glyphs, Key(text[i]));
      NextMark(font.glyphs, text, i, found);
      if found.None? {
        continue;
      }
      var g := font.glyphs[found.value];
      ghost var m := Mark(g, x);
      assert all[|ms|] == m && SaneAt(m, font.atlasSize);
      assert AsU32(x + g.width - g.x) == Reach(m) && AsU32(right) == right;
      BoxStep(ms, m);
      if AsU32(x - g.x) < AsU32(left) {
        left := g.x;
      }
      if AsU32(x + g.width - g.x) > AsU32(right) {
        right := x + g.width - g.x;
      }
      if -g.y < top {
        top := -g.y;
      }
      if g.height - g.y > bottom {
        bottom := g.height - g.y;
      }
      x := x + g.xOffset;
      ms := ms + [m];
    }
    assert text[..|text|] == text;
  }

  /** `calloc (4, width * height)`: a zeroed canvas of `height` rows of `width` texels. */
  method Calloc(width: nat, height: nat) returns (target: array<byte>)
    ensures fresh(target) && target[..] == Zeros(Area(width, height))
  {
    AreaIsProduct(width, height);
    target := new byte[4 * width * height](_ => 0);
  }

  /** The compositing pass: a zeroed canvas, then the rows of each glyph found copied at its pen. */
  method Compose(font: Font, text: seq<int>, f: Frame) returns (target: array<byte>)
    requires 0 <= font.atlasSize && |font.bitmap| == Area(font.atlasSize, font.atlasSize)
    requires AllFit(Placed(font.glyphs, text), f, font.atlasSize)
    ensures fresh(target) && target[..] == Canvas(font.bitmap, font.atlasSize, Placed(font.glyphs, text), f)
  {
    ghost var ms: seq<Mark> := [];
    target := Calloc(f.width, f.height);
    var x := 0;
    for i := 0 to |text|
      invariant x == Pen(font.glyphs, text[..i]) && ms == Placed(font.glyphs, text[..i])
      invariant AllFit(ms, f, font.atlasSize) && target[..] == Canvas(font.bitmap, font.atlasSize, ms, f)
    {
      x, ms := ComposeStep(target, font, text, i, x, f, ms);
    }
    assert text[..|text|] == text;
  }

  /** One character of the compositing pass: a glyph found is copied in at the pen, and the pen moves by its advance. */
  method ComposeStep(target: array<byte>, font: Font, text: seq<int>, i: nat, x: int, f: Frame, ghost ms: seq<Mark>)
      returns (x': int, ghost ms': seq<Mark>)
    requires 0 <= font.atlasSize && |font.bitmap| == Area(font.atlasSize, font.atlasSize)
    requires AllFit(Placed(font.glyphs, text), f, font.atlasSize)
    requires i < |text| && x == Pen(font.glyphs, text[..i]) && ms == Placed(font.glyphs, text[..i])
    requires AllFit(ms, f, font.atlasSize) && target[..] == Canvas(font.bitmap, font.atlasSize, ms, f)
    modifies target
    ensures x' == Pen(font.glyphs, text[..i + 1]) && ms' == Placed(font.glyphs, text[..i + 1])
    ensures AllFit(ms', f, font.atlasSize) && target[..] == Canvas(font.bitmap, font.atlasSize, ms', f)
  {
    var found := FindGlyph(font.glyphs, Key(text[i]));
    NextMark(font.glyphs, text, i, found);
    if found.None? {
      return x, ms;
    }
    var g := font.glyphs[found.value];
    ghost var m := Mark(g, x);
    assert FitsAt(Placed(font.glyphs, text)[|ms|], f, font.atlasSize);
    ComposeMark(target, font.bitmap, font.atlasSize, ms, g, x, f);
    x', ms' := x + g.xOffset, ms + [m];
  }

  /** One glyph found by the compositing pass: its rows are copied in, and the canvas gains its mark. */
  method ComposeMark(target: array<byte>, atlas: seq<byte>, size: nat, ghost ms: seq<Mark>, g: GlyphInfo, x: int, f: Frame)
    requires |atlas| == Area(size, size) && AllFit(ms, f, size) && FitsAt(Mark(g, x), f, size)
    requires target[..] == Canvas(atlas, size, ms, f)
    modifies target
    ensures AllFit(ms + [Mark(g, x)], f, size)
    ensures target[..] == Canvas(atlas, size, ms + [Mark(g, x)], f)
  {
    CanvasStep(atlas, size, ms, Mark(g, x), f);
    CopyGlyph(target, atlas, size, g, x, f);
  }

  /**
   * The row loop of the compositing pass: row `row` of the glyph's atlas rectangle goes to output row
   * -y - top + row, at texel column pen - x.
   */
  method CopyGlyph(target: array<byte>, atlas: seq<byte>, size: nat, g: GlyphInfo, x: int, f: Frame)
    requires target.Length == Area(f.width, f.height) && |atlas| == Area(size, size) && FitsAt(Mark(g, x), f, size)
    modifies target
    ensures target[..] == Paint(old(target[..]), atlas, size, Mark(g, x), f, g.height)
  {
    var m := Mark(g, x);
    ghost var canvas := target[..];
    for row := 0 to g.height
      invariant target[..] == Paint(canvas, atlas, size, m, f, row)
    {
      CopyGlyphRow(target, atlas, size, m, f, row, canvas);
    }
  }

  /** One pass of the row loop: the `memcpy` of row `row`, which extends the rows painted so far by one. */
  method CopyGlyphRow(target: array<byte>, atlas: seq<byte>, size: nat, m: Mark, f: Frame, row: nat, ghost canvas: seq<byte>)
    requires |canvas| == target.Length == Area(f.width, f.height) && |atlas| == Area(size, size)
    requires FitsAt(m, f, size) && row < m.g.height
    requires target[..] == Paint(canvas, atlas, size, m, f, row)
    modifies target
    ensures target[..] == Paint(canvas, atlas, size, m, f, row + 1)
  {
    PaintNext(canvas, atlas, size, m, f, row);
    CopyBytes(target, DestRow(m, f, size, row), atlas, SrcRow(m, f, size, row), 4 * m.g.width);
  }

  /** The shading pass: `height` lines of `width` cells, texel by texel, each line then ended. */
  method Shade(target: array<byte>, width: nat, height: nat) returns (lines: seq<seq<Cell>>)
    requires target.Length == Area(width, height)
    ensures |lines| == height
    ensures forall y :: 0 <= y < height ==> |lines[y]| == width
    ensures forall y, x :: 0 <= y < height && 0 <= x < width ==> ShadeOf(target[..], width, y, x, lines[y][x])
  {
    lines := [];
    for y := 0 to height
      invariant |lines| == y
      invariant forall r :: 0 <= r < y ==> |lines[r]| == width
      invariant forall r, x :: 0 <= r < y && 0 <= x < width ==> ShadeOf(target[..], width, r, x, lines[r][x])
    {
      var line := [];
      for x := 0 to width
        invariant |line| == x
        invariant forall c :: 0 <= c < x ==> ShadeOf(target[..], width, y, c, line[c])
      {
        var cell := ShadeTexel(target, width, height, y, x);
        line := line + [cell];
      }
      lines := lines + [line];
    }
  }

  /** The body of the shading loop: the texel at byte (y * width + x) * 4 goes through fr_PutRGB. */
  method ShadeTexel(target: array<byte>, width: nat, height: nat, y: nat, x: nat) returns (cell: Cell)
    requires target.Length == Area(width, height) && y < height && x < width
    ensures ShadeOf(target[..], width, y, x, cell)
  {
    RunInImage(width, height, y, 4 * x, 4);
    var o := (y * width + x) * 4;
    TexelOffset(width, y, x);
    var nearest, c := PutRGB(target[o], target[o + 1], target[o + 2]);
    cell := Cell(nearest, c);
  }

  /**
   * fr_RenderString: measure, composite, shade. The result has one line per canvas row and one cell per
   * canvas texel, and each cell is the palette pick for its texel of the composited canvas.
   */
  method RenderString(font: Font, text: seq<int>) returns (lines: seq<seq<Cell>>)
    requires Drawable(font, text)
    ensures var ms := Placed(font.glyphs, text);
      Right(ms) >= 0 && Bottom(ms) >= Top(ms) && AllFit(ms, FrameOf(ms), font.atlasSize)
      && var f := FrameOf(ms);
      |lines| == f.height
      && (forall y :: 0 <= y < f.height ==> |lines[y]| == f.width)
      && forall y, x :: 0 <= y < f.height && 0 <= x < f.width ==>
           ShadeOf(Canvas(font.bitmap, font.atlasSize, ms, f), f.width, y, x, lines[y][x])
  {
    SaneFits(font, text);
    var left, right, top, bottom := Measure(font, text);
    var width, height := right - left, bottom - top;
    var f := Frame(top, width, height);
    var target := Compose(font, text, f);
    lines := Shade(target, width, height);
  }
}
