/**
 * The pixel-to-terminal mapping of the consumer (fr_PutRGB in font-render.c): each RGBA texel
 * becomes one of sixteen terminal colours, chosen among the colours no channel of which is darker
 * than the texel, and one character of a thirteen-step intensity ramp.
 */
module Palette {
  import opened Bytes

  /** A palette entry: its channels and the ECMA-48 SGR sequence (section 8.3.117) that selects it, kept as an opaque string. */
  datatype Swatch = Swatch(r: byte, g: byte, b: byte, sgr: string)

  /** The sixteen entries, in the order the search scans them. */
  const Swatches: seq<Swatch> := [
    Swatch(0x00, 0x00, 0x00, "\U{1B}[23;30m"),
    Swatch(0x18, 0x18, 0xc2, "\U{1B}[23;34m"),
    Swatch(0x18, 0xc2, 0x18, "\U{1B}[23;32m"),
    Swatch(0x18, 0xc2, 0xc2, "\U{1B}[23;36m"),
    Swatch(0xc2, 0x18, 0x18, "\U{1B}[23;31m"),
    Swatch(0xc2, 0x18, 0xc2, "\U{1B}[23;35m"),
    Swatch(0xc2, 0xc2, 0x18, "\U{1B}[23;33m"),
    Swatch(0xc2, 0xc2, 0xc2, "\U{1B}[23;37m"),
    Swatch(0x68, 0x68, 0x68, "\U{1B}[3;30m"),
    Swatch(0x74, 0x74, 0xff, "\U{1B}[3;34m"),
    Swatch(0x54, 0xff, 0x54, "\U{1B}[3;32m"),
    Swatch(0x54, 0xff, 0xff, "\U{1B}[3;36m"),
    Swatch(0xff, 0x54, 0x54, "\U{1B}[3;31m"),
    Swatch(0xff, 0x54, 0xff, "\U{1B}[3;35m"),
    Swatch(0xff, 0xff, 0x54, "\U{1B}[3;33m"),
    Swatch(0xff, 0xff, 0xff, "\U{1B}[3;37m")
  ]

  /** The intensity ramp, from a perfect match to the furthest one. */
  const Ramp: string := "%@&#$=+<;:-. "

  /** The entry is a candidate for the texel: none of its channels lies below the texel's. */
  predicate Covers(s: Swatch, r: byte, g: byte, b: byte) {
    !(r > s.r || g > s.g || b > s.b)
  }

  /** The distance of a candidate entry from the texel: its largest channel gap (Chebyshev distance). */
  function Score(s: Swatch, r: byte, g: byte, b: byte): (d: nat)
    requires Covers(s, r, g, b)
    ensures s.r - r <= d && s.g - g <= d && s.b - b <= d
    ensures d == s.r - r || d == s.g - g || d == s.b - b
  {
    var dr, dg, db := s.r - r, s.g - g, s.b - b;
    if dr > dg && dr > db then dr else if dg > db then dg else db
  }

  /** Entry i of `palette` is the one the scan picks: a candidate with the smallest score, and the first such. */
  ghost predicate IsNearest(palette: seq<Swatch>, i: int, r: byte, g: byte, b: byte) {
    0 <= i < |palette| && Covers(palette[i], r, g, b)
    && (forall j :: 0 <= j < |palette| && Covers(palette[j], r, g, b) ==> Score(palette[i], r, g, b) <= Score(palette[j], r, g, b))
    && (forall j :: 0 <= j < i && Covers(palette[j], r, g, b) ==> Score(palette[i], r, g, b) < Score(palette[j], r, g, b))
  }

  /** The ramp character for a score: score * 13 / 256. */
  function RampChar(score: nat): char
    requires score < 256
  {
    Ramp[score * |Ramp| / 256]
  }

  /**
   * fr_PutRGB: pick the nearest entry of the palette and the ramp character of its score.
   * Alpha is not read. White is a candidate for every texel, so the pick always exists.
   */
  method PutRGB(r: byte, g: byte, b: byte) returns (nearest: nat, c: char)
    ensures IsNearest(Swatches, nearest, r, g, b)
    ensures Score(Swatches[nearest], r, g, b) < 256 && c == RampChar(Score(Swatches[nearest], r, g, b))
  {
    WhiteAlwaysCovers(r, g, b);
    var score;
    nearest, score := Nearest(Swatches, r, g, b);
    c := Ramp[score * |Ramp| / 256];
  }

  /**
   * The scan of fr_PutRGB: skip entries darker than the texel in some channel and keep the first
   * with the smallest score; the running best starts at 768, above every score.
   */
  method Nearest(palette: seq<Swatch>, r: byte, g: byte, b: byte) returns (nearest: nat, nearestScore: nat)
    requires |palette| > 0 && Covers(palette[|palette| - 1], r, g, b)
    ensures IsNearest(palette, nearest, r, g, b) && nearestScore == Score(palette[nearest], r, g, b)
  {
    nearest := 0;
    nearestScore := 768;
    for i := 0 to |palette|
      invariant nearestScore == 768 ==> nearest == 0 && forall j :: 0 <= j < i ==> !Covers(palette[j], r, g, b)
      invariant nearestScore != 768 ==> nearest < i && Covers(palette[nearest], r, g, b) && nearestScore == Score(palette[nearest], r, g, b)
      invariant forall j :: 0 <= j < i && Covers(palette[j], r, g, b) ==> nearestScore <= Score(palette[j], r, g, b)
      invariant forall j :: 0 <= j < nearest && Covers(palette[j], r, g, b) ==> nearestScore < Score(palette[j], r, g, b)
    {
      var s := palette[i];
      if r > s.r || g > s.g || b > s.b {
        continue;
      }
      var score := Score(s, r, g, b);
      if score < nearestScore {
        nearest := i;
        nearestScore := score;
      }
    }
  }

  /** Only one entry can be the nearest: the pick is a function of the palette and the texel. */
  lemma NearestUnique(palette: seq<Swatch>, i: int, j: int, r: byte, g: byte, b: byte)
    requires IsNearest(palette, i, r, g, b) && IsNearest(palette, j, r, g, b)
    ensures i == j
  {
  }

  /** White, the last entry, is a candidate for every texel. */
  lemma WhiteAlwaysCovers(r: byte, g: byte, b: byte)
    ensures |Swatches| == 16 && Covers(Swatches[|Swatches| - 1], r, g, b)
  {
  }

  /** No two entries share all three channels. */
  lemma ChannelsDistinct(j: int, k: int)
    requires 0 <= j < k < |Swatches|
    ensures (Swatches[j].r, Swatches[j].g, Swatches[j].b) != (Swatches[k].r, Swatches[k].g, Swatches[k].b)
  {
  }

  /** A texel equal to entry k in all three channels picks entry k, at score 0, and prints '%'. */
  lemma ExactMatch(k: int, r: byte, g: byte, b: byte)
    requires 0 <= k < |Swatches| && (r, g, b) == (Swatches[k].r, Swatches[k].g, Swatches[k].b)
    ensures forall i :: IsNearest(Swatches, i, r, g, b) <==> i == k
    ensures Score(Swatches[k], r, g, b) == 0 && RampChar(0) == '%'
  {
    forall j | 0 <= j < k && Covers(Swatches[j], r, g, b)
      ensures 0 < Score(Swatches[j], r, g, b)
    {
      ChannelsDistinct(j, k);
    }
    assert IsNearest(Swatches, k, r, g, b);
    forall i | IsNearest(Swatches, i, r, g, b)
      ensures i == k
    {
      NearestUnique(Swatches, i, k, r, g, b);
    }
  }

  /** A black texel picks the first entry, black, and prints '%'. */
  lemma BlackIsFirst()
    ensures forall i :: IsNearest(Swatches, i, 0, 0, 0) <==> i == 0
    ensures Score(Swatches[0], 0, 0, 0) == 0 && RampChar(0) == '%'
  {
    ExactMatch(0, 0, 0, 0);
  }
}
