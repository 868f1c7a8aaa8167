/**
 * The glyph registry of the producer (glyph.c): a fixed 512 x 512 RGBA atlas filled by a
 * skyline packer, one metric slot per 16-bit code, a bitset of the codes that were added,
 * and the binary export of all of it.
 */
module Glyph {
  import opened Bytes

  /** Side of the square atlas, in texels (GLYPH_ATLAS_SIZE). */
  const AtlasSize: nat := 512
  /** Bytes in one atlas row: four per RGBA texel. */
  const RowBytes: nat := 2048
  /** Bytes in the whole atlas, AtlasSize * AtlasSize texels of four bytes. */
  const BitmapBytes: nat := 0x10_0000
  /** Number of metric slots: one per 16-bit code. */
  const CodeCount: nat := 0x1_0000
  /** Number of 32-bit words in the loaded-code bitset. */
  const LoadedWords: nat := 0x800

  /** A glyph as the font backend hands it over: size, bearing, advance and width * height RGBA texels. */
  datatype FontGlyph = FontGlyph(width: nat, height: nat, x: int, y: int, xOffset: int, yOffset: int, data: seq<byte>)

  /** What GLYPH_Add needs of a glyph that carries pixels: it fits across the atlas and its pixel buffer is complete. */
  predicate Admissible(g: FontGlyph) {
    g.width > 0 && g.height > 0 ==> g.width <= AtlasSize && 4 * g.width * g.height <= |g.data|
  }

  /** One metric slot (struct glyph_Data): 16-bit size, bearing, advance and atlas position. */
  datatype GlyphData = GlyphData(width: nat, height: nat, x: int, y: int, xOffset: int, yOffset: int, u: int, v: int)

  /** A slot that was never written, and what GLYPH_Get reports for an out-of-range code. */
  const Blank := GlyphData(0, 0, 0, 0, 0, 0, 0, 0)

  /** The slot GLYPH_Add stores for `g` placed at (u, v): each field converted to its 16-bit C type. */
  function Stamp(g: FontGlyph, u: int, v: int): (d: GlyphData)
    ensures d.width < 0x1_0000 && d.height < 0x1_0000
    ensures IsS16(d.x) && IsS16(d.y) && IsS16(d.xOffset) && IsS16(d.yOffset)
    ensures g.width < 0x1_0000 && g.height < 0x1_0000 ==> d.width == g.width && d.height == g.height
    ensures (d.u, d.v) == (u, v)
  {
    GlyphData(g.width % 0x1_0000, g.height % 0x1_0000, ToS16(g.x), ToS16(g.y), ToS16(g.xOffset), ToS16(g.yOffset), u, v)
  }

  /** Outcome of GLYPH_Add: done, or the fatal "Atlas is full" exit. */
  datatype AddStatus = Ok | AtlasFull

  /** A rectangle of the atlas handed out by the packer, with the pixels written into it. */
  datatype Placement = Placement(u: nat, v: nat, width: nat, height: nat, pixels: seq<byte>)

  predicate InAtlas(p: Placement) {
    0 < p.width && 0 < p.height && p.u + p.width <= AtlasSize && p.v + p.height <= AtlasSize
    && 4 * p.width * p.height <= |p.pixels|
  }

  /** Two rectangles share no texel. */
  predicate Apart(p: Placement, q: Placement) {
    p.u + p.width <= q.u || q.u + q.width <= p.u || p.v + p.height <= q.v || q.v + q.height <= p.v
  }

  /** Offset of byte `col` of atlas row `row`. */
  function ByteAt(row: int, col: int): int {
    row * 2048 + col
  }

  /** Offset of byte j of row r of `p`, in the atlas. */
  function Dest(p: Placement, r: int, j: int): int {
    ByteAt(p.v + r, 4 * p.u + j)
  }

  /** Offset of byte j of row r in a glyph buffer `width` texels wide. */
  function Src(width: nat, height: nat, r: nat, j: nat): (i: nat)
    requires r < height && j < 4 * width
    ensures i < 4 * width * height
  {
    RowInBuffer(width, height, r);
    r * (4 * width) + j
  }

  lemma RowInBuffer(width: nat, height: nat, r: nat)
    requires r < height
    ensures r * (4 * width) + 4 * width <= 4 * width * height
  {
    calc {
      r * (4 * width) + 4 * width;
    ==
      (r + 1) * (4 * width);
    <= { MulMonotone(r + 1, height, 4 * width); }
      height * (4 * width);
    ==
      4 * width * height;
    }
  }

  lemma MulMonotone(a: nat, b: nat, c: nat)
    requires a <= b
    ensures a * c <= b * c
  {}

  /** Atlas byte (row, col) lies in the first `rows` rows of `p`. */
  predicate Covers(p: Placement, rows: nat, row: int, col: int) {
    p.v <= row < p.v + rows && 4 * p.u <= col < 4 * (p.u + p.width)
  }

  /** `now` is `was` with the first `rows` rows of `p.pixels` written at (p.u, p.v), and nothing else changed. */
  ghost predicate BlittedRows(now: seq<byte>, was: seq<byte>, p: Placement, rows: nat)
    requires |now| == |was| == BitmapBytes && InAtlas(p) && rows <= p.height
  {
    (forall r, j :: 0 <= r < rows && 0 <= j < 4 * p.width ==> now[Dest(p, r, j)] == p.pixels[Src(p.width, p.height, r, j)])
    && (forall row, col :: 0 <= row < AtlasSize && 0 <= col < RowBytes && !Covers(p, rows, row, col) ==>
          now[ByteAt(row, col)] == was[ByteAt(row, col)])
  }

  function Max(a: int, b: int): int {
    if a < b then b else a
  }

  /** The highest of a non-empty run of column tops, scanned left to right. */
  function SpanMax(s: seq<int>): (m: int)
    requires |s| > 0
    ensures forall i :: 0 <= i < |s| ==> s[i] <= m
    ensures exists i :: 0 <= i < |s| && s[i] == m
  {
    if |s| == 1 then s[0] else Max(SpanMax(s[..|s| - 1]), s[|s| - 1])
  }

  /** The row a glyph `width` columns wide comes to rest on when its left column is u (v_max). */
  function RestingRow(top: seq<int>, u: nat, width: nat): int
    requires 0 < width && u + width <= |top|
  {
    SpanMax(top[u..u + width])
  }

  /** Column u is where the packer puts a glyph `width` wide: it rests lowest there, and strictly higher everywhere to its left. */
  ghost predicate LowestLeftmost(top: seq<int>, u: nat, v: int, width: nat)
    requires 0 < width <= |top|
  {
    u + width <= |top| && v == RestingRow(top, u, width)
    && (forall w: nat :: w + width <= |top| ==> v <= RestingRow(top, w, width))
    && (forall w: nat :: w < u ==> v < RestingRow(top, w, width))
  }

  /** Some column lets a width x height glyph rest inside the atlas. */
  ghost predicate HasRoom(top: seq<int>, width: nat, height: nat)
    requires 0 < width <= |top|
  {
    exists u: nat :: u + width <= |top| && RestingRow(top, u, width) + height <= AtlasSize
  }

  /** Bit `b` of a bitset word is set. */
  predicate BitSet(w: bv32, b: bv32)
    requires b < 32
  {
    w & (1 << b) != 0
  }

  /** A bit position below 32 keeps its value as a 32-bit word, checked value by value (one constant conversion per case is cheaper for the solver than the general one). */
  lemma SmallBv(k: nat)
    requires k < 32
    ensures (k as bv32) as int == k
  {
    if k == 0 { assert (k as bv32) as int == 0; }
    else if k == 1 { assert (k as bv32) as int == 1; }
    else if k == 2 { assert (k as bv32) as int == 2; }
    else if k == 3 { assert (k as bv32) as int == 3; }
    else if k == 4 { assert (k as bv32) as int == 4; }
    else if k == 5 { assert (k as bv32) as int == 5; }
    else if k == 6 { assert (k as bv32) as int == 6; }
    else if k == 7 { assert (k as bv32) as int == 7; }
    else if k == 8 { assert (k as bv32) as int == 8; }
    else if k == 9 { assert (k as bv32) as int == 9; }
    else if k == 10 { assert (k as bv32) as int == 10; }
    else if k == 11 { assert (k as bv32) as int == 11; }
    else if k == 12 { assert (k as bv32) as int == 12; }
    else if k == 13 { assert (k as bv32) as int == 13; }
    else if k == 14 { assert (k as bv32) as int == 14; }
    else if k == 15 { assert (k as bv32) as int == 15; }
    else if k == 16 { assert (k as bv32) as int == 16; }
    else if k == 17 { assert (k as bv32) as int == 17; }
    else if k == 18 { assert (k as bv32) as int == 18; }
    else if k == 19 { assert (k as bv32) as int == 19; }
    else if k == 20 { assert (k as bv32) as int == 20; }
    else if k == 21 { assert (k as bv32) as int == 21; }
    else if k == 22 { assert (k as bv32) as int == 22; }
    else if k == 23 { assert (k as bv32) as int == 23; }
    else if k == 24 { assert (k as bv32) as int == 24; }
    else if k == 25 { assert (k as bv32) as int == 25; }
    else if k == 26 { assert (k as bv32) as int == 26; }
    else if k == 27 { assert (k as bv32) as int == 27; }
    else if k == 28 { assert (k as bv32) as int == 28; }
    else if k == 29 { assert (k as bv32) as int == 29; }
    else if k == 30 { assert (k as bv32) as int == 30; }
    else if k == 31 { assert (k as bv32) as int == 31; }
  }

  /** The bit position of `code` in its word (code & 31). */
  function BitOf(code: nat): (b: bv32)
    ensures b < 32 && b as int == code % 32
  {
    SmallBv(code % 32);
    (code % 32) as bv32
  }

  lemma SetBit(w: bv32, i: bv32, j: bv32)
    requires i < 32 && j < 32
    ensures BitSet(w | (1 << i), j) <==> BitSet(w, j) || i == j
  {}

  /** The bitset `words` holds exactly the codes in `loaded`. */
  ghost predicate Agrees(words: seq<bv32>, loaded: set<nat>) {
    |words| == LoadedWords
    && (forall c :: c in loaded ==> c < CodeCount)
    && (forall c: nat :: c < CodeCount ==> (c in loaded <==> BitSet(words[c / 32], BitOf(c))))
  }

  /** Setting the bit of `code` adds `code`, and no other code, to the set the bitset holds. */
  lemma SetLoaded(words: seq<bv32>, loaded: set<nat>, code: nat)
    requires Agrees(words, loaded) && code < CodeCount
    ensures Agrees(words[code / 32 := words[code / 32] | (1 << BitOf(code))], loaded + {code})
  {
    var words' := words[code / 32 := words[code / 32] | (1 << BitOf(code))];
    forall c: nat | c < CodeCount
      ensures c in loaded + {code} <==> BitSet(words'[c / 32], BitOf(c))
    {
      assert c in loaded <==> BitSet(words[c / 32], BitOf(c));
      if c / 32 == code / 32 {
        SameWord(words[c / 32], code, c);
      }
    }
  }

  /** Within one word, setting the bit of `code` sets the bit of c exactly when c is `code`. */
  lemma SameWord(w: bv32, code: nat, c: nat)
    requires c / 32 == code / 32
    ensures BitSet(w | (1 << BitOf(code)), BitOf(c)) <==> BitSet(w, BitOf(c)) || c == code
  {
    SetBit(w, BitOf(code), BitOf(c));
  }

  /** One exported record: a code and its slot. */
  datatype Entry = Entry(code: nat, data: GlyphData)

  /** glyph_WriteS16: the low 16 bits of v, low byte first. */
  function WriteS16(v: int): (b: seq<byte>)
    ensures |b| == 2 && b[0] as int + 256 * b[1] as int == v % 0x1_0000
  {
    [v % 256, (v / 256) % 256]
  }

  /** The eight little-endian 16-bit fields GLYPH_Export writes for one code; yOffset is not among them. */
  function EncodeRecord(e: Entry): (b: seq<byte>)
    ensures |b| == 16
  {
    WriteS16(e.code) + WriteS16(e.data.xOffset) + WriteS16(e.data.width) + WriteS16(e.data.height)
    + WriteS16(e.data.x) + WriteS16(e.data.y) + WriteS16(e.data.u) + WriteS16(e.data.v)
  }

  /** The records of a table, back to back. */
  function EncodeTable(t: seq<Entry>): (b: seq<byte>)
    ensures |b| == 16 * |t|
  {
    if t == [] then [] else EncodeTable(t[..|t| - 1]) + EncodeRecord(t[|t| - 1])
  }

  lemma {:induction false} RecordAt(t: seq<Entry>, k: nat)
    requires k < |t|
    ensures 16 * k + 16 <= |EncodeTable(t)|
    ensures EncodeTable(t)[16 * k .. 16 * k + 16] == EncodeRecord(t[k])
  {
    var n := |t| - 1;
    assert EncodeTable(t) == EncodeTable(t[..n]) + EncodeRecord(t[n]);
    if k < n {
      RecordAt(t[..n], k);
      assert t[..n][k] == t[k];
    }
  }

  /** The export stream of an atlas and a table of records. */
  function Stream(bitmap: seq<byte>, t: seq<Entry>): seq<byte> {
    WriteS16(AtlasSize) + bitmap + EncodeTable(t)
  }

  /** Every rectangle lies in the atlas and no two share a texel. */
  predicate Packed(ps: seq<Placement>) {
    (forall i :: 0 <= i < |ps| ==> InAtlas(ps[i]))
    && (forall i, j :: 0 <= i < j < |ps| ==> Apart(ps[i], ps[j]))
  }

  /** Every rectangle lies below the skyline on each column it spans. */
  predicate Beneath(ps: seq<Placement>, top: seq<int>) {
    forall i, c :: 0 <= i < |ps| && ps[i].u <= c < ps[i].u + ps[i].width && c < |top| ==> ps[i].v + ps[i].height <= top[c]
  }

  /** The skyline after a glyph `width` wide whose top edge is now `level` has been put at column u. */
  function Raised(top: seq<int>, u: nat, width: nat, level: int): (r: seq<int>)
    ensures |r| == |top|
  {
    seq(|top|, c requires 0 <= c < |top| => if u <= c < u + width then level else top[c])
  }

  /**
   * Placing a rectangle where the packer puts it keeps the placements packed and beneath the raised
   * skyline: it rests on or above the skyline over its span, and every earlier rectangle lies below that.
   */
  lemma PlaceOnSkyline(ps: seq<Placement>, top: seq<int>, p: Placement)
    requires |top| == AtlasSize && Packed(ps) && Beneath(ps, top) && InAtlas(p)
    requires LowestLeftmost(top, p.u, p.v, p.width)
    ensures Packed(ps + [p]) && Beneath(ps + [p], Raised(top, p.u, p.width, p.v + p.height))
  {
    var span := top[p.u..p.u + p.width];
    forall i | 0 <= i < |ps|
      ensures Apart(ps[i], p)
    {
      var q := ps[i];
      if !(q.u + q.width <= p.u || p.u + p.width <= q.u) {
        var c := Max(q.u, p.u);
        assert span[c - p.u] == top[c];
      }
    }
    var ps' := ps + [p];
    forall i, j | 0 <= i < j < |ps'|
      ensures Apart(ps'[i], ps'[j])
    {
      if j < |ps| {
        assert ps'[i] == ps[i] && ps'[j] == ps[j];
      }
    }
    var top' := Raised(top, p.u, p.width, p.v + p.height);
    forall i, c | 0 <= i < |ps'| && ps'[i].u <= c < ps'[i].u + ps'[i].width && c < |top'|
      ensures ps'[i].v + ps'[i].height <= top'[c]
    {
      if p.u <= c < p.u + p.width {
        assert span[c - p.u] == top[c];
      }
    }
  }

  /** Packing never lowers the skyline: over its span the new level is at or above every old column top. */
  lemma SkylineRises(top: seq<int>, u: nat, v: int, width: nat, height: nat)
    requires 0 < width <= |top| && LowestLeftmost(top, u, v, width)
    ensures forall c :: 0 <= c < |top| ==> top[c] <= Raised(top, u, width, v + height)[c]
  {
    forall c | 0 <= c < |top|
      ensures top[c] <= Raised(top, u, width, v + height)[c]
    {
      if u <= c < u + width {
        assert top[u..u + width][c - u] == top[c];
      }
    }
  }

  /** Copying row k of `p` into an atlas holding its first k rows gives one holding its first k + 1 rows. */
  lemma CopyRow(before: seq<byte>, after: seq<byte>, was: seq<byte>, p: Placement, k: nat)
    requires |before| == |was| == BitmapBytes && InAtlas(p) && k < p.height
    requires BlittedRows(before, was, p, k)
    requires k * (4 * p.width) + 4 * p.width <= |p.pixels|
    requires after == Splice(before, ByteAt(p.v + k, 4 * p.u), p.pixels[k * (4 * p.width)..k * (4 * p.width) + 4 * p.width])
    ensures BlittedRows(after, was, p, k + 1)
  {
    forall r, j | 0 <= r < k + 1 && 0 <= j < 4 * p.width
      ensures after[Dest(p, r, j)] == p.pixels[Src(p.width, p.height, r, j)]
    {
      CopiedByte(before, after, was, p, k, r, j);
    }
    forall row, col | 0 <= row < AtlasSize && 0 <= col < RowBytes && !Covers(p, k + 1, row, col)
      ensures after[ByteAt(row, col)] == was[ByteAt(row, col)]
    {
      WithinRow(row, col, p.v + k, 4 * p.u, 4 * p.width);
    }
  }

  /** Byte j of row r of `p` is in place after row k is copied: it was already (r < k), or it was just written (r == k). */
  lemma CopiedByte(before: seq<byte>, after: seq<byte>, was: seq<byte>, p: Placement, k: nat, r: nat, j: nat)
    requires |before| == |was| == BitmapBytes && InAtlas(p) && k < p.height
    requires BlittedRows(before, was, p, k)
    requires k * (4 * p.width) + 4 * p.width <= |p.pixels|
    requires after == Splice(before, ByteAt(p.v + k, 4 * p.u), p.pixels[k * (4 * p.width)..k * (4 * p.width) + 4 * p.width])
    requires r <= k && j < 4 * p.width
    ensures after[Dest(p, r, j)] == p.pixels[Src(p.width, p.height, r, j)]
  {
    var w, at, d := 4 * p.width, ByteAt(p.v + k, 4 * p.u), Dest(p, r, j);
    WithinRow(p.v + r, 4 * p.u + j, p.v + k, 4 * p.u, w);
    if r < k {
      assert before[d] == p.pixels[Src(p.width, p.height, r, j)];
      assert !(at <= d < at + w);
      assert after[d] == before[d];
    } else {
      var off := k * w;
      assert d == at + j;
      assert Src(p.width, p.height, r, j) == off + j;
      assert p.pixels[off..off + w][j] == p.pixels[off + j];
    }
  }

  /** Byte (row, col) falls in the run of n bytes starting at (row0, col0) exactly when it is in that row and those columns. */
  lemma WithinRow(row: int, col: int, row0: int, col0: int, n: nat)
    requires 0 <= col < RowBytes && 0 <= col0 && col0 + n <= RowBytes
    ensures ByteAt(row0, col0) <= ByteAt(row, col) < ByteAt(row0, col0) + n <==> row == row0 && col0 <= col < col0 + n
  {
  }

  /**
   * One glyph packed: `p` sits at the skyline's lowest leftmost column, its rows are copied into the
   * atlas and nothing else is, and the skyline over its columns now ends at its bottom edge.
   */
  ghost predicate Packs(top: seq<int>, bitmap: seq<byte>, p: Placement, top': seq<int>, bitmap': seq<byte>) {
    |top| == AtlasSize && |bitmap| == |bitmap'| == BitmapBytes && InAtlas(p)
    && LowestLeftmost(top, p.u, p.v, p.width)
    && BlittedRows(bitmap', bitmap, p, p.height)
    && top' == Raised(top, p.u, p.width, p.v + p.height)
  }

  /** Writing one more record appends its 16 bytes to the table. */
  lemma TableAppend(t: seq<Entry>, e: Entry)
    ensures EncodeTable(t + [e]) == EncodeTable(t) + EncodeRecord(e)
  {
    assert (t + [e])[..|t|] == t;
  }

  class Registry {
    /** The atlas: AtlasSize rows of AtlasSize RGBA texels, row-major. */
    var bitmap: array<byte>
    /** One slot per code. */
    var glyphs: array<GlyphData>
    /** The loaded-code bitset: bit (code % 32) of word (code / 32). */
    var loadedGlyphs: array<bv32>
    /** The skyline: top[c] is the first row of column c that no glyph occupies. */
    var top: array<int>

    /** The codes added so far, as a set. */
    ghost var Loaded: set<nat>
    /** Every rectangle the packer has handed out, in order. */
    ghost var Placements: seq<Placement>

    ghost predicate LoadedAgrees()
      reads this`Loaded, this`loadedGlyphs, loadedGlyphs
    {
      Agrees(loadedGlyphs[..], Loaded)
    }

    /** The atlas, the skyline and the placements agree: everything placed is packed beneath the skyline. */
    ghost predicate AtlasValid()
      reads this`bitmap, this`top, this`Placements, top
    {
      bitmap.Length == BitmapBytes && top.Length == AtlasSize
      && (forall c :: 0 <= c < AtlasSize ==> 0 <= top[c] <= AtlasSize)
      && Packed(Placements) && Beneath(Placements, top[..])
    }

    ghost predicate Valid()
      reads this, bitmap, glyphs, loadedGlyphs, top
    {
      glyphs.Length == CodeCount && LoadedAgrees() && AtlasValid()
    }

    /** GLYPH_Init and the zeroed static tables: an empty atlas, no codes loaded. */
    constructor ()
      ensures Valid() && fresh(bitmap) && fresh(glyphs) && fresh(loadedGlyphs) && fresh(top)
      ensures Loaded == {} && Placements == []
      ensures bitmap[..] == seq(BitmapBytes, _ => 0) && top[..] == seq(AtlasSize, _ => 0)
      ensures forall c :: 0 <= c < CodeCount ==> glyphs[c] == Blank
    {
      bitmap := new byte[BitmapBytes](_ => 0);
      glyphs := new GlyphData[CodeCount](_ => Blank);
      loadedGlyphs := new bv32[LoadedWords](_ => 0);
      top := new int[AtlasSize](_ => 0);
      Loaded := {};
      Placements := [];
    }

    /** GLYPH_IsLoaded: out-of-range codes count as loaded; otherwise the code's bit. */
    function IsLoaded(code: nat): (r: bool)
      reads this`Loaded, this`loadedGlyphs, loadedGlyphs
      requires LoadedAgrees()
      ensures r <==> code >= CodeCount || code in Loaded
    {
      code >= CodeCount || BitSet(loadedGlyphs[code / 32], BitOf(code))
    }

    /** GLYPH_Get: the slot of an in-range code; zeroed metrics and u = v = 0 otherwise. */
    function Get(code: nat): (r: GlyphData)
      reads this, glyphs
      requires glyphs.Length == CodeCount
      ensures code >= CodeCount ==> r == Blank
      ensures code < CodeCount ==> r == glyphs[code]
    {
      if code >= CodeCount then Blank else glyphs[code]
    }

    /** The skyline search of GLYPH_Add: the leftmost column where a glyph `width` wide rests lowest, or (AtlasSize, AtlasSize) when every column rests on the atlas's bottom. */
    method SearchColumns(width: nat) returns (bestU: nat, bestV: int)
      requires top.Length == AtlasSize && 0 < width <= AtlasSize
      ensures bestU == AtlasSize ==> bestV == AtlasSize && forall u: nat :: u + width <= AtlasSize ==> AtlasSize <= RestingRow(top[..], u, width)
      ensures bestU != AtlasSize ==> LowestLeftmost(top[..], bestU, bestV, width) && bestV < AtlasSize
    {
      bestU, bestV := AtlasSize, AtlasSize;
      var u := 0;
      while u < AtlasSize - width + 1
        invariant 0 <= u <= AtlasSize - width + 1
        invariant bestV <= AtlasSize
        invariant bestU == AtlasSize ==> bestV == AtlasSize
        invariant bestU != AtlasSize ==> bestU < u && bestV == RestingRow(top[..], bestU, width) && bestV < AtlasSize
        invariant forall w: nat :: w < u ==> bestV <= RestingRow(top[..], w, width)
        invariant bestU != AtlasSize ==> forall w: nat :: w < bestU ==> bestV < RestingRow(top[..], w, width)
      {
        var vMax := ScanSpan(u, width, bestV);
        if vMax < bestV {
          bestV := vMax;
          bestU := u;
        }
        u := u + 1;
      }
    }

    /** The inner scan of the skyline search: v_max over columns u .. u + width - 1, given up once it reaches `bound`. */
    method ScanSpan(u: nat, width: nat, bound: int) returns (vMax: int)
      requires top.Length == AtlasSize && 0 < width && u + width <= AtlasSize
      ensures vMax < bound ==> vMax == RestingRow(top[..], u, width)
      ensures bound <= vMax ==> bound <= RestingRow(top[..], u, width)
    {
      vMax := top[u];
      var k := 1;
      assert top[..][u..u + 1] == [top[u]];
      while k < width && vMax < bound
        invariant 1 <= k <= width
        invariant vMax == SpanMax(top[..][u..u + k])
      {
        assert top[..][u..u + k + 1][..k] == top[..][u..u + k];
        if top[u + k] > vMax {
          vMax := top[u + k];
        }
        k := k + 1;
      }
      if k < width {
        // stopped early: the columns not scanned can only raise v_max
        var s := top[..][u..u + width];
        assert s[..k] == top[..][u..u + k];
        var i :| 0 <= i < k && s[..k][i] == vMax;
        assert s[i] <= RestingRow(top[..], u, width);
      }
    }

    /** The row copy of GLYPH_Add: each row of p.pixels to its atlas row, and no other byte. */
    method Blit(ghost p: Placement, u: nat, v: nat, width: nat, height: nat, data: seq<byte>)
      requires bitmap.Length == BitmapBytes && InAtlas(p) && p == Placement(u, v, width, height, data)
      modifies bitmap
      ensures BlittedRows(bitmap[..], old(bitmap[..]), p, height)
    {
      var k := 0;
      while k < height
        invariant 0 <= k <= height
        invariant BlittedRows(bitmap[..], old(bitmap[..]), p, k)
      {
        ghost var before := bitmap[..];
        RowInBuffer(width, height, k);
        CopyBytes(bitmap, ByteAt(v + k, 4 * u), data, k * (4 * width), 4 * width);
        CopyRow(before, bitmap[..], old(bitmap[..]), p, k);
        k := k + 1;
      }
    }

    /** The skyline update of GLYPH_Add: columns u .. u + width - 1 now end at `level`. */
    method Raise(u: nat, width: nat, level: int)
      requires top.Length == AtlasSize && u + width <= AtlasSize
      modifies top
      ensures top[..] == Raised(old(top[..]), u, width, level)
    {
      var k := 0;
      while k < width
        invariant 0 <= k <= width
        invariant top[..] == Raised(old(top[..]), u, k, level)
      {
        top[u + k] := level;
        k := k + 1;
      }
    }

    /** Sets the loaded bit of `code`. */
    method MarkLoaded(code: nat)
      requires LoadedAgrees() && code < CodeCount
      modifies this`Loaded, loadedGlyphs
      ensures LoadedAgrees() && Loaded == old(Loaded) + {code}
    {
      ghost var words, before := loadedGlyphs[..], Loaded;
      var word := loadedGlyphs[code / 32] | (1 << BitOf(code));
      loadedGlyphs[code / 32] := word;
      Loaded := Loaded + {code};
      assert loadedGlyphs[..] == words[code / 32 := word];
      SetLoaded(words, before, code);
    }

    /** The packing half of GLYPH_Add for a glyph with pixels: search, then copy in and raise the skyline, unless the atlas is full. */
    method Place(g: FontGlyph) returns (placed: bool, u: nat, v: nat)
      requires AtlasValid() && g.width > 0 && g.height > 0 && Admissible(g)
      modifies this`Placements, bitmap, top
      ensures AtlasValid()
      ensures placed <==> HasRoom(old(top[..]), g.width, g.height)
      ensures !placed ==> unchanged(bitmap, top) && Placements == old(Placements)
      ensures placed ==>
                var p := Placement(u, v, g.width, g.height, g.data);
                Placements == old(Placements) + [p] && Packs(old(top[..]), old(bitmap[..]), p, top[..], bitmap[..])
    {
      ghost var skyline := top[..];
      var bestU, bestV := SearchColumns(g.width);
      if bestU == AtlasSize || bestV + g.height > AtlasSize {
        assert !HasRoom(skyline, g.width, g.height) by {
          forall w: nat | w + g.width <= AtlasSize
            ensures AtlasSize < RestingRow(skyline, w, g.width) + g.height
          {
            assert bestV <= RestingRow(top[..], w, g.width);
          }
        }
        return false, 0, 0;
      }
      assert HasRoom(skyline, g.width, g.height) by {
        assert RestingRow(skyline, bestU, g.width) + g.height <= AtlasSize;
      }
      placed, u, v := true, bestU, bestV;
      Commit(Placement(u, v, g.width, g.height, g.data));
    }

    /** The copy-in and skyline update of GLYPH_Add, once the search has chosen where `p` goes. */
    method Commit(p: Placement)
      requires AtlasValid() && InAtlas(p) && LowestLeftmost(top[..], p.u, p.v, p.width)
      modifies this`Placements, bitmap, top
      ensures AtlasValid()
      ensures Placements == old(Placements) + [p] && Packs(old(top[..]), old(bitmap[..]), p, top[..], bitmap[..])
    {
      ghost var skyline := top[..];
      PlaceOnSkyline(Placements, skyline, p);
      Blit(p, p.u, p.v, p.width, p.height, p.pixels);
      assert top[..] == skyline;
      Raise(p.u, p.width, p.v + p.height);
      Placements := Placements + [p];
      forall c | 0 <= c < AtlasSize
        ensures 0 <= top[c] <= AtlasSize
      {
        assert top[c] == top[..][c];
      }
    }

    /**
     * GLYPH_Add: record `g` under `code`. Out-of-range codes are ignored. Otherwise the code is marked
     * loaded; a glyph with pixels is packed at the skyline's lowest leftmost column, copied in and the
     * skyline raised over it (or the atlas is full and nothing more happens); then the slot takes the new metrics.
     */
    method Add(code: nat, g: FontGlyph) returns (status: AddStatus)
      requires Valid() && Admissible(g)
      modifies this, bitmap, glyphs, loadedGlyphs, top
      ensures Valid()
      ensures bitmap == old(bitmap) && glyphs == old(glyphs) && loadedGlyphs == old(loadedGlyphs) && top == old(top)
      ensures code >= CodeCount ==> status == Ok && Loaded == old(Loaded) && unchanged(loadedGlyphs)
      ensures code < CodeCount ==> Loaded == old(Loaded) + {code}
      ensures status == AtlasFull <==> code < CodeCount && g.width > 0 && g.height > 0 && !HasRoom(old(top[..]), g.width, g.height)
      ensures status == AtlasFull || code >= CodeCount || g.width == 0 || g.height == 0 ==>
                unchanged(bitmap, top) && Placements == old(Placements)
      ensures status == AtlasFull || code >= CodeCount ==> unchanged(glyphs)
      ensures status == Ok && code < CodeCount ==> forall c :: 0 <= c < CodeCount && c != code ==> glyphs[c] == old(glyphs[c])
      ensures status == Ok && code < CodeCount && (g.width == 0 || g.height == 0) ==>
                glyphs[code] == Stamp(g, old(glyphs[code]).u, old(glyphs[code]).v)
      ensures status == Ok && code < CodeCount && g.width > 0 && g.height > 0 ==>
                0 <= glyphs[code].u && 0 <= glyphs[code].v &&
                var p := Placement(glyphs[code].u, glyphs[code].v, g.width, g.height, g.data);
                Placements == old(Placements) + [p]
                && glyphs[code] == Stamp(g, p.u, p.v)
                && Packs(old(top[..]), old(bitmap[..]), p, top[..], bitmap[..])
    {
      if code >= CodeCount {
        return Ok;
      }
      MarkLoaded(code);
      assert top[..] == old(top[..]) && bitmap[..] == old(bitmap[..]);
      var u, v := glyphs[code].u, glyphs[code].v;
      if g.width > 0 && g.height > 0 {
        var placed;
        placed, u, v := Place(g);
        if !placed {
          return AtlasFull;
        }
        ghost var skyline, atlas := top[..], bitmap[..];
        glyphs[code] := Stamp(g, u, v);
        assert top[..] == skyline && bitmap[..] == atlas;
      } else {
        glyphs[code] := Stamp(g, u, v);
      }
      status := Ok;
    }
  
    /** A code gets a record in the export: it was added, and its width and height are not both 0. */
    ghost predicate Emitted(c: nat)
      reads this`Loaded, this`glyphs, glyphs
      requires glyphs.Length == CodeCount && c < CodeCount
    {
      c in Loaded && !(glyphs[c].width == 0 && glyphs[c].height == 0)
    }

    /** The records the export writes for codes below n, in the order it writes them. */
    ghost function TableUpTo(n: nat): seq<Entry>
      reads this`Loaded, this`glyphs, glyphs
      requires glyphs.Length == CodeCount && n <= CodeCount
    {
      if n == 0 then [] else TableUpTo(n - 1) + if Emitted(n - 1) then [Entry(n - 1, glyphs[n - 1])] else []
    }

    /** The table holds only emitted codes below n, each with its own slot, in strictly ascending code order. */
    lemma {:induction false} TableSound(n: nat)
      requires glyphs.Length == CodeCount && n <= CodeCount
      ensures var t := TableUpTo(n);
        (forall i :: 0 <= i < |t| ==> t[i].code < n && Emitted(t[i].code) && t[i].data == glyphs[t[i].code])
        && (forall i, j :: 0 <= i < j < |t| ==> t[i].code < t[j].code)
    {
      if n > 0 {
        TableSound(n - 1);
        var t, s := TableUpTo(n - 1), TableUpTo(n);
        TableStep(n - 1);
        forall i | 0 <= i < |s|
          ensures s[i].code < n && Emitted(s[i].code) && s[i].data == glyphs[s[i].code]
        {
          if i < |t| {
            assert s[i] == t[i];
          } else {
            assert s[i] == Entry(n - 1, glyphs[n - 1]);
          }
        }
        forall i, j | 0 <= i < j < |s|
          ensures s[i].code < s[j].code
        {
          assert s[i] == t[i];
          if j < |t| {
            assert s[j] == t[j];
          } else {
            assert s[j] == Entry(n - 1, glyphs[n - 1]);
          }
        }
      }
    }

    /** One step of the export loop: code i adds its record exactly when it is emitted. */
    lemma TableStep(i: nat)
      requires glyphs.Length == CodeCount && i < CodeCount
      ensures Emitted(i) ==> TableUpTo(i + 1) == TableUpTo(i) + [Entry(i, glyphs[i])]
      ensures !Emitted(i) ==> TableUpTo(i + 1) == TableUpTo(i)
    {
    }

    /** Every code below n that is emitted has its record in the table. */
    lemma {:induction false} TableComplete(n: nat, c: nat)
      requires glyphs.Length == CodeCount && c < n <= CodeCount && Emitted(c)
      ensures exists i :: 0 <= i < |TableUpTo(n)| && TableUpTo(n)[i] == Entry(c, glyphs[c])
    {
      var t := TableUpTo(n - 1);
      if c == n - 1 {
        assert TableUpTo(n)[|t|] == Entry(c, glyphs[c]);
      } else {
        TableComplete(n - 1, c);
        var i :| 0 <= i < |t| && t[i] == Entry(c, glyphs[c]);
        assert TableUpTo(n)[i] == t[i];
      }
    }

    /** One pass of the export loop appends code i's record exactly when code i is emitted. */
    lemma ExportStep(i: nat, before: seq<byte>, after: seq<byte>)
      requires glyphs.Length == CodeCount && i < CodeCount && before == EncodeTable(TableUpTo(i))
      requires after == if i in Loaded && !(glyphs[i].width <= 0 && glyphs[i].height <= 0) then before + EncodeRecord(Entry(i, glyphs[i])) else before
      ensures after == EncodeTable(TableUpTo(i + 1))
    {
      TableStep(i);
      if Emitted(i) {
        TableAppend(TableUpTo(i), Entry(i, glyphs[i]));
      }
    }

    /** GLYPH_Export: the atlas size, the raw atlas, then one record per emitted code in ascending order. */
    method Export() returns (out: seq<byte>)
      requires glyphs.Length == CodeCount && LoadedAgrees()
      ensures out == Stream(bitmap[..], TableUpTo(CodeCount))
    {
      var records := [];
      var i := 0;
      while i < CodeCount
        invariant 0 <= i <= CodeCount
        invariant records == EncodeTable(TableUpTo(i))
      {
        var d := glyphs[i];
        var loaded := IsLoaded(i);
        ghost var before := records;
        if loaded && !(d.width <= 0 && d.height <= 0) {
          records := records + EncodeRecord(Entry(i, d));
        }
        ExportStep(i, before, records);
        i := i + 1;
      }
      out := WriteS16(AtlasSize) + bitmap[..] + records;
    }
  }
}
