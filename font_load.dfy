/**
 * The consumer's side of the font stream (font-render.c): the 16-bit reader, the loader that
 * turns the stream into an atlas and a table of at most 256 glyph records, and the binary
 * search over that table.
 */
module FontLoad {
  import opened Bytes

  /** Most records the loader keeps (FR_MAX_GLYPHS). */
  const MaxGlyphs: nat := 256
  /** Bytes in one record: eight 16-bit fields. */
  const RecordBytes: nat := 16

  datatype Option<T> = None | Some(value: T)

  /** One record of the table (struct fr_GlyphInfo): every field an `int16_t`. */
  datatype GlyphInfo = GlyphInfo(ch: int, xOffset: int, width: int, height: int, x: int, y: int, u: int, v: int)

  /** A loaded font (struct fr_Font): the atlas side, the RGBA atlas and the record table. */
  datatype Font = Font(atlasSize: int, bitmap: seq<byte>, glyphs: seq<GlyphInfo>)

  function Min(a: int, b: int): int {
    if a < b then a else b
  }

  /** fr_ReadS16: the first byte is the low half, the second the high half, the whole read as `int16_t`. */
  function ReadS16(lo: byte, hi: byte): (r: int)
    ensures IsS16(r)
    ensures r % 256 == lo && (r / 256) % 256 == hi
  {
    var m := lo + 256 * hi;
    assert m / 256 == hi;
    if m < 0x8000 then m else
      assert (m - 0x1_0000) / 256 == hi - 256;
      m - 0x1_0000
  }

  /** The 16-bit field at `at`, low byte first. */
  function FieldAt(s: seq<byte>, at: nat): (r: int)
    requires at + 2 <= |s|
    ensures IsS16(r)
  {
    ReadS16(s[at], s[at + 1])
  }

  /** One 16-byte record, in the field order the loader reads: ch, xOffset, width, height, x, y, u, v. */
  function DecodeRecord(s: seq<byte>): (g: GlyphInfo)
    requires |s| == RecordBytes
    ensures IsS16(g.ch) && IsS16(g.xOffset) && IsS16(g.width) && IsS16(g.height)
    ensures IsS16(g.x) && IsS16(g.y) && IsS16(g.u) && IsS16(g.v)
  {
    GlyphInfo(FieldAt(s, 0), FieldAt(s, 2), FieldAt(s, 4), FieldAt(s, 6), FieldAt(s, 8), FieldAt(s, 10), FieldAt(s, 12), FieldAt(s, 14))
  }

  /** The complete records at the head of `s`, at most `limit` of them; record i comes from bytes 16 i .. 16 i + 15. */
  function DecodeRecords(s: seq<byte>, limit: nat): (t: seq<GlyphInfo>)
    ensures |t| <= limit && RecordBytes * |t| <= |s|
    ensures |t| == limit || |s| < RecordBytes * |t| + RecordBytes
  {
    seq(Min(|s| / RecordBytes, limit), i requires 0 <= i < Min(|s| / RecordBytes, limit) =>
      DecodeRecord(s[RecordBytes * i..RecordBytes * i + RecordBytes]))
  }

  /** `n` zero bytes: what `calloc` hands out. */
  function Zeros(n: nat): (z: seq<byte>)
    ensures |z| == n && forall i :: 0 <= i < n ==> z[i] == 0
  {
    seq(n, _ => 0)
  }

  /**
   * fr_LoadFont over a byte stream: the atlas side, then 4 * side * side atlas bytes (zero-filled
   * when the stream ends first, and then no records follow), then complete records, at most 256.
   */
  function DecodeFont(s: seq<byte>): (r: Option<Font>)
    ensures |s| < 2 <==> r.None?
    ensures r.Some? ==> r.value.atlasSize == ReadS16(s[0], s[1])
    ensures r.Some? ==> |r.value.bitmap| == 4 * r.value.atlasSize * r.value.atlasSize
    ensures r.Some? ==> |r.value.glyphs| <= MaxGlyphs
  {
    if |s| < 2 then None
    else
      var size := ReadS16(s[0], s[1]);
      var n := 4 * size * size;
      var body := s[2..];
      if |body| < n then Some(Font(size, body + Zeros(n - |body|), []))
      else Some(Font(size, body[..n], DecodeRecords(body[n..], MaxGlyphs)))
  }

  /** fr_LoadFont: read the header and the atlas, then the records. */
  method LoadFont(s: seq<byte>) returns (r: Option<Font>)
    ensures r == DecodeFont(s)
  {
    if |s| < 2 {
      return None;
    }
    var atlasSize := ReadS16(s[0], s[1]);
    var n := 4 * atlasSize * atlasSize;
    var body := s[2..];
    if |body| < n {
      return Some(Font(atlasSize, body + Zeros(n - |body|), []));
    }
    var glyphs := ReadRecords(s, 2 + n);
    assert body[n..] == s[2 + n..];
    r := Some(Font(atlasSize, body[..n], glyphs));
  }

  /** The record loop of fr_LoadFont: one record per pass while a whole one is left and the table has room. */
  method ReadRecords(s: seq<byte>, start: nat) returns (glyphs: seq<GlyphInfo>)
    requires start <= |s|
    ensures glyphs == DecodeRecords(s[start..], MaxGlyphs)
  {
    var pos := start;
    glyphs := [];
    while pos + RecordBytes <= |s| && |glyphs| < MaxGlyphs
      invariant pos == start + RecordBytes * |glyphs| <= |s| && |glyphs| <= MaxGlyphs
      invariant forall i :: 0 <= i < |glyphs| ==> glyphs[i] == DecodeRecord(s[start + RecordBytes * i..start + RecordBytes * i + RecordBytes])
    {
      glyphs := glyphs + [DecodeRecord(s[pos..pos + RecordBytes])];
      pos := pos + RecordBytes;
    }
    var t := DecodeRecords(s[start..], MaxGlyphs);
    forall i | 0 <= i < |t|
      ensures t[i] == glyphs[i]
    {
      assert s[start..][RecordBytes * i..RecordBytes * i + RecordBytes] == s[start + RecordBytes * i..start + RecordBytes * i + RecordBytes];
    }
  }

  /** How fr_FindGlyph compares: the `int16_t` field converted to `wint_t` (unsigned). */
  function Key(ch: int): (k: nat)
    ensures k < 0x1_0000_0000
  {
    AsU32(ch)
  }

  /** Some record of the table has key `key`. */
  ghost predicate Holds(glyphs: seq<GlyphInfo>, key: nat) {
    exists i :: 0 <= i < |glyphs| && Key(glyphs[i].ch) == key
  }

  /** The keys never go down along the table. */
  ghost predicate Sorted(glyphs: seq<GlyphInfo>) {
    forall i, j :: 0 <= i < j < |glyphs| ==> Key(glyphs[i].ch) <= Key(glyphs[j].ch)
  }

  /** The keys go strictly up along the table. */
  ghost predicate StrictlySorted(glyphs: seq<GlyphInfo>) {
    forall i, j :: 0 <= i < j < |glyphs| ==> Key(glyphs[i].ch) < Key(glyphs[j].ch)
  }

  /**
   * The record fr_FindGlyph returns when it looks for `key` among the `count` records from `first` on:
   * probe the middle one, then go on in the half the comparison points to.
   */
  function Search(glyphs: seq<GlyphInfo>, key: nat, first: nat, count: nat): (r: Option<nat>)
    requires first + count <= |glyphs|
    ensures r.Some? ==> first <= r.value < first + count && Key(glyphs[r.value].ch) == key
    decreases count
  {
    if count == 0 then None
    else
      var half := count / 2;
      var middle := first + half;
      if Key(glyphs[middle].ch) == key then Some(middle)
      else if Key(glyphs[middle].ch) < key then Search(glyphs, key, middle + 1, count - (half + 1))
      else Search(glyphs, key, first, half)
  }

  /** No record before index i has a larger key than `key`, and none after it a smaller one. */
  ghost predicate InOrderAt(glyphs: seq<GlyphInfo>, key: nat, i: nat) {
    (forall j :: 0 <= j < i && j < |glyphs| ==> Key(glyphs[j].ch) <= key)
    && (forall j :: i < j < |glyphs| ==> key <= Key(glyphs[j].ch))
  }

  /** The search finds a key held at an index where the table is in order around it, if that index is among the records it is given. */
  lemma {:induction false} SearchComplete(glyphs: seq<GlyphInfo>, key: nat, first: nat, count: nat, i: nat)
    requires first + count <= |glyphs| && InOrderAt(glyphs, key, i)
    requires first <= i < first + count && Key(glyphs[i].ch) == key
    ensures Search(glyphs, key, first, count).Some?
    decreases count
  {
    var half := count / 2;
    var middle := first + half;
    var k := Key(glyphs[middle].ch);
    if k == key {
    } else if k < key {
      assert middle < i;
      SearchComplete(glyphs, key, middle + 1, count - (half + 1), i);
    } else {
      assert i < middle;
      SearchComplete(glyphs, key, first, half, i);
    }
  }

  /** The first record with key `key`, by a left-to-right scan: the reference the binary search is measured against. */
  function IndexOf(glyphs: seq<GlyphInfo>, key: nat): (r: Option<nat>)
    ensures r.Some? ==> r.value < |glyphs| && Key(glyphs[r.value].ch) == key
    ensures r.Some? ==> forall j :: 0 <= j < r.value ==> Key(glyphs[j].ch) != key
    ensures r.None? ==> forall j :: 0 <= j < |glyphs| ==> Key(glyphs[j].ch) != key
  {
    if glyphs == [] then None
    else if Key(glyphs[0].ch) == key then Some(0)
    else match IndexOf(glyphs[1..], key)
      case None => None
      case Some(i) => Some(i + 1)
  }

  /** On a strictly sorted table the binary search and the scan agree on every key. */
  lemma SearchIsIndexOf(glyphs: seq<GlyphInfo>, key: nat)
    requires StrictlySorted(glyphs)
    ensures Search(glyphs, key, 0, |glyphs|) == IndexOf(glyphs, key)
  {
    var s, l := Search(glyphs, key, 0, |glyphs|), IndexOf(glyphs, key);
    if l.Some? {
      assert InOrderAt(glyphs, key, l.value);
      SearchComplete(glyphs, key, 0, |glyphs|, l.value);
      assert s.value == l.value;
    }
  }

  /**
   * fr_FindGlyph: binary search for `key` over the table. Whatever the order of the table, a record it
   * returns has that key (on a sorted table it finds every key the table holds: SortedFound).
   */
  method FindGlyph(glyphs: seq<GlyphInfo>, key: nat) returns (r: Option<nat>)
    ensures r == Search(glyphs, key, 0, |glyphs|)
    ensures r.Some? ==> r.value < |glyphs| && Key(glyphs[r.value].ch) == key
  {
    var first: nat, count: nat := 0, |glyphs|;
    while count > 0
      invariant first + count <= |glyphs|
      invariant Search(glyphs, key, first, count) == Search(glyphs, key, 0, |glyphs|)
      decreases count
    {
      var half := count / 2;
      var middle := first + half;
      if Key(glyphs[middle].ch) == key {
        return Some(middle);
      }
      if Key(glyphs[middle].ch) < key {
        first := middle + 1;
        count := count - (half + 1);
      } else {
        count := half;
      }
    }
    r := None;
  }

  /** On a sorted table the search's answer tells whether the table holds the key. */
  lemma SortedFound(glyphs: seq<GlyphInfo>, key: nat, r: Option<nat>)
    requires r == Search(glyphs, key, 0, |glyphs|)
    ensures Sorted(glyphs) ==> (r.Some? <==> Holds(glyphs, key))
  {
    if Sorted(glyphs) && Holds(glyphs, key) {
      var i :| 0 <= i < |glyphs| && Key(glyphs[i].ch) == key;
      assert InOrderAt(glyphs, key, i);
      SearchComplete(glyphs, key, 0, |glyphs|, i);
    }
  }
}
