/**
 * The binary format shared by the producer (GLYPH_Export in glyph.c) and the consumer (fr_LoadFont
 * and fr_FindGlyph in font-render.c): what the loader makes of an exported stream, and which codes
 * the renderer's lookup then finds.
 */
module Interchange {
  import opened Bytes
  import Glyph
  import FontLoad
  import Render

  /** The record the loader reads back for an exported entry: every field as the `int16_t` it was written as. */
  function Received(e: Glyph.Entry): FontLoad.GlyphInfo {
    FontLoad.GlyphInfo(ToS16(e.code), ToS16(e.data.xOffset), ToS16(e.data.width), ToS16(e.data.height),
                       ToS16(e.data.x), ToS16(e.data.y), ToS16(e.data.u), ToS16(e.data.v))
  }

  /** The table the loader builds from an exported table: the first 256 records, read back. */
  function Imported(t: seq<Glyph.Entry>): (r: seq<FontLoad.GlyphInfo>)
    ensures |r| == FontLoad.Min(|t|, FontLoad.MaxGlyphs)
  {
    seq(FontLoad.Min(|t|, FontLoad.MaxGlyphs), i requires 0 <= i < |t| => Received(t[i]))
  }

  /** The key the binary search compares for an exported code: the code as `int16_t`, then as `wint_t`. */
  function CodeKey(code: nat): nat {
    FontLoad.Key(ToS16(code))
  }

  /** fr_ReadS16 undoes glyph_WriteS16: it yields the value as `int16_t`, which is the value itself when it fits. */
  lemma S16RoundTrip(v: int)
    ensures |Glyph.WriteS16(v)| == 2
    ensures FontLoad.ReadS16(Glyph.WriteS16(v)[0], Glyph.WriteS16(v)[1]) == ToS16(v)
    ensures IsS16(v) ==> FontLoad.ReadS16(Glyph.WriteS16(v)[0], Glyph.WriteS16(v)[1]) == v
  {
    var b := Glyph.WriteS16(v);
    assert b[0] as int + 256 * b[1] as int == v % 0x1_0000;
  }

  /** The field at byte 2 k of a record is the one GLYPH_Export writes k-th, read back. */
  lemma FieldRoundTrip(b: seq<byte>, k: nat, v: int)
    requires 2 * k + 2 <= |b| && b[2 * k..2 * k + 2] == Glyph.WriteS16(v)
    ensures FontLoad.FieldAt(b, 2 * k) == ToS16(v)
  {
    S16RoundTrip(v);
    assert b[2 * k] == Glyph.WriteS16(v)[0] && b[2 * k + 1] == Glyph.WriteS16(v)[1];
  }

  /**
   * The export's record layout and the loader's agree field for field: code, xOffset, width, height,
   * x, y, u, v, each read back as the `int16_t` it was written as.
   */
  lemma RecordRoundTrip(e: Glyph.Entry)
    ensures FontLoad.DecodeRecord(Glyph.EncodeRecord(e)) == Received(e)
  {
    var b := Glyph.EncodeRecord(e);
    var fields := [e.code, e.data.xOffset, e.data.width, e.data.height, e.data.x, e.data.y, e.data.u, e.data.v];
    forall k | 0 <= k < 8
      ensures FontLoad.FieldAt(b, 2 * k) == ToS16(fields[k])
    {
      assert b[2 * k..2 * k + 2] == Glyph.WriteS16(fields[k]);
      FieldRoundTrip(b, k, fields[k]);
    }
  }

  /** Record i of an exported table, read back by the loader's record loop. */
  lemma DecodedAt(t: seq<Glyph.Entry>, i: nat)
    requires i < |t| && i < FontLoad.MaxGlyphs
    ensures i < |FontLoad.DecodeRecords(Glyph.EncodeTable(t), FontLoad.MaxGlyphs)|
    ensures FontLoad.DecodeRecords(Glyph.EncodeTable(t), FontLoad.MaxGlyphs)[i] == Received(t[i])
  {
    var table := Glyph.EncodeTable(t);
    var decoded := FontLoad.DecodeRecords(table, FontLoad.MaxGlyphs);
    assert i < |decoded| by {
      assert |table| / FontLoad.RecordBytes == |t|;
    }
    Glyph.RecordAt(t, i);
    assert decoded[i] == FontLoad.DecodeRecord(Glyph.EncodeRecord(t[i]));
    RecordRoundTrip(t[i]);
  }

  /** The loader's record loop over an exported table reads back its first 256 entries. */
  lemma TableRoundTrip(t: seq<Glyph.Entry>)
    ensures FontLoad.DecodeRecords(Glyph.EncodeTable(t), FontLoad.MaxGlyphs) == Imported(t)
  {
    var decoded, r := FontLoad.DecodeRecords(Glyph.EncodeTable(t), FontLoad.MaxGlyphs), Imported(t);
    assert |decoded| == |r| by {
      assert |Glyph.EncodeTable(t)| / FontLoad.RecordBytes == |t|;
    }
    forall i | 0 <= i < |r|
      ensures decoded[i] == r[i]
    {
      DecodedAt(t, i);
    }
  }

  /**
   * fr_LoadFont over an exported stream: the atlas side 512, the atlas bytes as written, and the first
   * 256 records of the table, each read back.
   */
  lemma StreamRoundTrip(bitmap: seq<byte>, t: seq<Glyph.Entry>)
    requires |bitmap| == Glyph.BitmapBytes
    ensures FontLoad.DecodeFont(Glyph.Stream(bitmap, t)) == FontLoad.Some(FontLoad.Font(Glyph.AtlasSize, bitmap, Imported(t)))
  {
    var s, table := Glyph.Stream(bitmap, t), Glyph.EncodeTable(t);
    S16RoundTrip(Glyph.AtlasSize);
    assert FontLoad.ReadS16(s[0], s[1]) == Glyph.AtlasSize by {
      assert s[0] == Glyph.WriteS16(Glyph.AtlasSize)[0] && s[1] == Glyph.WriteS16(Glyph.AtlasSize)[1];
    }
    var n := 4 * Glyph.AtlasSize * Glyph.AtlasSize;
    assert s[2..][..n] == bitmap && s[2..][n..] == table by {
      assert s[2..] == bitmap + table;
    }
    TableRoundTrip(t);
  }

  /** Converting codes to `int16_t` and then to `wint_t` keeps their order. */
  lemma KeyOrder(a: nat, b: nat)
    requires a < b < Glyph.CodeCount
    ensures CodeKey(a) < CodeKey(b)
  {
  }

  /** The codes of a table go strictly up and stay below 65536, as the export writes them. */
  ghost predicate Ascending(t: seq<Glyph.Entry>) {
    (forall i :: 0 <= i < |t| ==> t[i].code < Glyph.CodeCount)
    && (forall i, j :: 0 <= i < j < |t| ==> t[i].code < t[j].code)
  }

  /** The table loaded from an ascending export is strictly sorted by the key the search compares. */
  lemma ImportedSorted(t: seq<Glyph.Entry>)
    requires Ascending(t)
    ensures FontLoad.StrictlySorted(Imported(t))
  {
    var r := Imported(t);
    forall i, j | 0 <= i < j < |r|
      ensures FontLoad.Key(r[i].ch) < FontLoad.Key(r[j].ch)
    {
      KeyOrder(t[i].code, t[j].code);
    }
  }

  /**
   * fr_FindGlyph on the loaded table finds a code exactly when the code has one of the first 256
   * records of the export, and it lands on that record.
   */
  lemma ExportedLookup(t: seq<Glyph.Entry>, code: nat)
    requires Ascending(t) && code < Glyph.CodeCount
    ensures var r := Imported(t);
      var found := FontLoad.Search(r, CodeKey(code), 0, |r|);
      (found.Some? <==> exists i :: 0 <= i < |r| && t[i].code == code)
      && (found.Some? ==> t[found.value].code == code && r[found.value] == Received(t[found.value]))
  {
    var r := Imported(t);
    var found := FontLoad.Search(r, CodeKey(code), 0, |r|);
    ImportedSorted(t);
    FontLoad.SearchIsIndexOf(r, CodeKey(code));
    if found.Some? {
      var i := found.value;
      if t[i].code != code {
        if t[i].code < code {
          KeyOrder(t[i].code, code);
        } else {
          KeyOrder(code, t[i].code);
        }
      }
    }
    if exists i :: 0 <= i < |r| && t[i].code == code {
      var i :| 0 <= i < |r| && t[i].code == code;
      assert FontLoad.Key(r[i].ch) == CodeKey(code);
    }
  }

  /**
   * End to end: load what a registry exports for the codes below n (n = 65536 is the whole export) and
   * look a code up. The loader reads back the atlas and the first 256 records. A code is found only if
   * it was added with a non-empty size (a blank glyph such as a space is not exported, so the renderer
   * skips it and does not advance the pen), and, when the export has at most 256 records, every such
   * code is found, with its own slot read back.
   */
  lemma RegistryLookup(reg: Glyph.Registry, n: nat, code: nat)
    requires reg.glyphs.Length == Glyph.CodeCount && reg.bitmap.Length == Glyph.BitmapBytes && code < n <= Glyph.CodeCount
    ensures var t := reg.TableUpTo(n);
      FontLoad.DecodeFont(Glyph.Stream(reg.bitmap[..], t)) == FontLoad.Some(FontLoad.Font(Glyph.AtlasSize, reg.bitmap[..], Imported(t)))
    ensures var r := Imported(reg.TableUpTo(n));
      var found := FontLoad.Search(r, CodeKey(code), 0, |r|);
      (found.Some? ==> reg.Emitted(code) && r[found.value] == Received(Glyph.Entry(code, reg.glyphs[code])))
      && (reg.Emitted(code) && |reg.TableUpTo(n)| <= FontLoad.MaxGlyphs ==> found.Some?)
  {
    reg.TableSound(n);
    var t := reg.TableUpTo(n);
    assert Ascending(t) && forall i :: 0 <= i < |t| ==> reg.Emitted(t[i].code) && t[i] == Glyph.Entry(t[i].code, reg.glyphs[t[i].code]) by {
      assert forall i :: 0 <= i < |reg.TableUpTo(n)| ==>
        reg.TableUpTo(n)[i].code < n && reg.Emitted(reg.TableUpTo(n)[i].code) && reg.TableUpTo(n)[i].data == reg.glyphs[reg.TableUpTo(n)[i].code];
      assert forall i, j :: 0 <= i < j < |reg.TableUpTo(n)| ==> reg.TableUpTo(n)[i].code < reg.TableUpTo(n)[j].code;
    }
    StreamRoundTrip(reg.bitmap[..], t);
    ExportedLookup(t, code);
    var r := Imported(t);
    var found := FontLoad.Search(r, CodeKey(code), 0, |r|);
    if found.Some? {
      assert t[found.value] == Glyph.Entry(code, reg.glyphs[code]);
    }
    if reg.Emitted(code) {
      reg.TableComplete(n, code);
    }
  }

  /** For codes a `char` can hold, the export's key and the renderer's key agree. */
  lemma CodeKeyIsKey(code: nat)
    requires code < 0x8000
    ensures CodeKey(code) == FontLoad.Key(code)
  {
  }

  /**
   * The renderer's own lookup over a registry's loaded export: a character code below 0x8000 gets a
   * glyph only if it was added and is not 0 x 0, and then its own slot read back; a code that is not
   * exported gets none and does not move the pen; with at most 256 records every exported code gets its glyph.
   */
  lemma RenderedLookup(reg: Glyph.Registry, n: nat, code: nat)
    requires reg.glyphs.Length == Glyph.CodeCount && reg.bitmap.Length == Glyph.BitmapBytes && code < n <= Glyph.CodeCount
    requires code < 0x8000
    ensures var r := Imported(reg.TableUpTo(n));
      var found := Render.Lookup(r, code);
      (found.Some? ==> reg.Emitted(code) && found.value == Received(Glyph.Entry(code, reg.glyphs[code])))
      && (!reg.Emitted(code) ==> found.None? && Render.Advance(r, code) == 0)
      && (reg.Emitted(code) && |reg.TableUpTo(n)| <= FontLoad.MaxGlyphs ==> found.Some?)
  {
    RegistryLookup(reg, n, code);
    CodeKeyIsKey(code);
  }
}
