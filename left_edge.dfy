/**
 * The left box edge of fr_RenderString (font-render.c). The measuring pass compares x - glyph->x with
 * left in `unsigned int` (font-render.c:172), so left never moves off 0, and the compositing pass
 * writes at column x - glyph->x (font-render.c:204) with no left to add back. A glyph whose x bearing
 * is more than the pen makes that column wrap. This module gives the offset as written, the input
 * that makes it wrap, and the left edge the box evidently means to keep, under which no column is
 * negative.
 */
module LeftEdge {
  import opened Bytes
  import opened FontLoad
  import opened Render

  /**
   * The destination offset of canvas row `y` as font-render.c:204 computes it in `unsigned int`: the sum
   * y * width + pen - x is taken mod 2^32, and so is its product by 4. It is the exact offset while
   * nothing wraps.
   */
  function DestOffsetAsWritten(width: nat, y: nat, m: Mark): (o: nat)
    ensures o < 0x1_0000_0000
    ensures 0 <= y * width + m.pen - m.g.x < 0x4000_0000 ==> o == 4 * (y * width + m.pen - m.g.x)
  {
    AsU32(4 * AsU32(y * width + m.pen - m.g.x))
  }

  /** A glyph 'A' of 8 x 10 texels with x bearing 1, y bearing 9 and advance 9. */
  const ExampleA := GlyphInfo('A' as int, 9, 8, 10, 1, 9, 0, 0)

  /**
   * The text "A" in a font whose only glyph is ExampleA. The measuring pass leaves left at 0, so the
   * canvas is 7 x 10 texels (280 bytes); the copy of the glyph's row 0 goes to offset 0xFFFFFFFC, far
   * outside it. The text is not Drawable, which is how RenderString leaves it out. With the left edge
   * kept, left is -1 and the glyph starts at column 0 of a box 8 wide.
   */
  lemma BoxExampleWraps(size: int, bitmap: seq<byte>)
    ensures Placed([ExampleA], ['A' as int]) == [Mark(ExampleA, 0)]
    ensures Right([Mark(ExampleA, 0)]) == 7 && Top([Mark(ExampleA, 0)]) == -9 && Bottom([Mark(ExampleA, 0)]) == 1
    ensures Area(7, 10) == 280 && DestOffsetAsWritten(7, 0, Mark(ExampleA, 0)) == 0xFFFF_FFFC
    ensures !Drawable(Font(size, bitmap, [ExampleA]), ['A' as int])
    ensures Left([Mark(ExampleA, 0)]) == -1 && Right([Mark(ExampleA, 0)]) - Left([Mark(ExampleA, 0)]) == 8
  {
    var text := ['A' as int];
    assert text[..0] == [];
    assert Lookup([ExampleA], 'A' as int) == Some(ExampleA);
    AreaIsProduct(7, 10);
  }

  /** The left box edge the measuring pass evidently means to keep: 0, moved to pen - x of any glyph that starts further left. */
  function Left(ms: seq<Mark>): int {
    if ms == [] then 0
    else
      var l, m := Left(ms[..|ms| - 1]), ms[|ms| - 1];
      if m.pen - m.g.x < l then m.pen - m.g.x else l
  }

  /** Left is the least of 0 and pen - x over the marks, and it is one of them. */
  lemma {:induction false} LeftIsLeast(ms: seq<Mark>)
    ensures Left(ms) <= 0
    ensures forall k :: 0 <= k < |ms| ==> Left(ms) <= ms[k].pen - ms[k].g.x
    ensures Left(ms) == 0 || exists k :: 0 <= k < |ms| && Left(ms) == ms[k].pen - ms[k].g.x
  {
    if ms != [] {
      LeftIsLeast(ms[..|ms| - 1]);
    }
  }

  /**
   * With that left edge, the destination column pen - x - left of every glyph is never negative and the
   * glyph ends within the box width right - left, for any pens and bearings.
   */
  lemma LeftFits(ms: seq<Mark>)
    ensures Right(ms) - Left(ms) >= 0
    ensures forall k :: 0 <= k < |ms| ==>
      0 <= ms[k].pen - ms[k].g.x - Left(ms) && ms[k].pen - ms[k].g.x - Left(ms) + ms[k].g.width <= Right(ms) - Left(ms)
  {
    LeftIsLeast(ms);
    RightIsGreatest(ms);
  }
}
