/** The arithmetic of the tile compositor that both scripts share
    (create_pdf in LPsamples.py and samples.py): panel size in points, the
    bleed constants, the resized tile and the number of tiles stacked up the
    panel. Reals are exact here; the scripts use binary floating point. */
module Tiling {
  import opened Results

  /** 1 ft = 12 in and 1 in = 72 pt. */
  const PointsPerFoot: nat := 12 * 72

  /** 2 mm and 3 mm in points (x * 72 / 25.4), rounded to four decimals. */
  const Bleed2mm: real := 5.6693
  const Bleed3mm: real := 8.5039

  /** A page length in points, as PyMuPDF reports it: never negative. */
  type Length = r: real | 0.0 <= r

  datatype ImageSize = ImageSize(width: nat, height: nat)

  /** Where one tile is drawn on the ReportLab canvas: x is always 0 and y is
      measured upwards from the bottom edge of the page. */
  datatype Placement = Placement(y: int, width: int, height: int)

  /** The page and tile geometry create_pdf derives before drawing. */
  datatype Layout = Layout(pageWidth: Length, pageHeight: nat, tileWidth: int, tileHeight: int, tileCount: nat)

  function FeetToPoints(ft: nat): nat { ft * PointsPerFoot }

  /** Any bleed other than 2 mm gets the 3 mm constant. */
  function BleedPoints(bleedMm: int): real { if bleedMm == 2 then Bleed2mm else Bleed3mm }

  /** The panel width plus one bleed on each side. */
  function ExtendedWidth(widthFt: nat, bleedMm: int): Length
  {
    FeetToPoints(widthFt) as real + 2.0 * BleedPoints(bleedMm)
  }

  /** int(img_height * (extended_width / img_width)); the operand is never
      negative, so Python's truncation is the floor. */
  function ScaledHeight(image: ImageSize, extendedWidth: real): int
    requires image.width > 0
  {
    ExactHeight(image, extendedWidth).Floor
  }

  /** The height the image would have at the extended width, before truncation. */
  function ExactHeight(image: ImageSize, extendedWidth: real): real
    requires image.width > 0
  {
    image.height as real * (extendedWidth / image.width as real)
  }

  /** (total // tile) + 1 */
  function TileCount(total: nat, tile: int): nat
    requires tile > 0
  {
    total / tile + 1
  }

  lemma BleedConstants(bleedMm: int)
    ensures -0.0001 < Bleed2mm - 2.0 * 72.0 / 25.4 < 0.0001
    ensures -0.0001 < Bleed3mm - 3.0 * 72.0 / 25.4 < 0.0001
    ensures bleedMm != 2 ==> ExtendedWidth(0, bleedMm) == 2.0 * Bleed3mm
    ensures ExtendedWidth(0, 2) == 2.0 * Bleed2mm
  {
  }

  /** The page width is the panel width in points plus two bleeds, and every
      bleed value other than 2 mm yields the 3 mm page. */
  lemma PageWidth(widthFt: nat, bleedMm: int)
    ensures ExtendedWidth(widthFt, bleedMm) == (864 * widthFt) as real + 2.0 * BleedPoints(bleedMm)
    ensures bleedMm != 2 ==> ExtendedWidth(widthFt, bleedMm) == ExtendedWidth(widthFt, 3)
    ensures ExtendedWidth(widthFt, 3) - ExtendedWidth(widthFt, 2) == 5.6692
  {
  }

  /** One more tile than fits whole: the stack strictly exceeds the panel
      height, by at most one tile, and by exactly one tile when the tile
      height divides the panel height. Removing the last tile undershoots. */
  lemma {:induction false} TileCoverage(total: nat, tile: int)
    requires tile > 0
    ensures TileCount(total, tile) * tile > total
    ensures TileCount(total, tile) * tile - total <= tile
    ensures (TileCount(total, tile) - 1) * tile <= total
    ensures total % tile == 0 <==> TileCount(total, tile) * tile - total == tile
  {
    var q, m := total / tile, total % tile;
    assert total == q * tile + m && 0 <= m < tile;
    calc {
      TileCount(total, tile) * tile;
      (q + 1) * tile;
      q * tile + tile;
      total - m + tile;
    }
  }

  /** The tile geometry of create_pdf, or the exception that aborts it: a zero
      image width divides by zero in the scale factor, and a tile that
      truncates to zero height cannot be resized or counted. */
  function TileLayout(image: ImageSize, widthFt: nat, heightFt: nat, bleedMm: int): (r: Result<Layout>)
    ensures image.width == 0 ==> r == Err(ZeroImageWidth)
    ensures image.width > 0 ==>
      (r.Err? <==> ScaledHeight(image, ExtendedWidth(widthFt, bleedMm)) == 0) &&
      (r.Err? ==> r.error == ZeroTileHeight)
    ensures r.Ok? ==>
      var l := r.value;
      // the tile fills the extended width, truncated to whole points
      && l.pageWidth == ExtendedWidth(widthFt, bleedMm)
      && l.tileWidth as real <= l.pageWidth < l.tileWidth as real + 1.0
      // the tile keeps the image's aspect ratio, truncated to whole points
      && l.tileHeight as real <= ExactHeight(image, l.pageWidth) < l.tileHeight as real + 1.0
      // the stack covers the panel height, overshooting by at most one tile
      && l.pageHeight == FeetToPoints(heightFt)
      && l.tileHeight > 0
      && l.tileCount * l.tileHeight > l.pageHeight
      && (l.tileCount - 1) * l.tileHeight <= l.pageHeight
  {
    if image.width == 0 then Err(ZeroImageWidth)
    else
      var extended := ExtendedWidth(widthFt, bleedMm);
      var tile := ScaledHeight(image, extended);
      if tile == 0 then Err(ZeroTileHeight)
      else
        var total := FeetToPoints(heightFt);
        var l := Layout(extended, total, extended.Floor, tile, TileCount(total, tile));
        LayoutBounds(image, l);
        Ok(l)
  }

  lemma LayoutBounds(image: ImageSize, l: Layout)
    requires image.width > 0 && l.tileHeight > 0
    requires l.tileWidth == l.pageWidth.Floor && l.tileHeight == ScaledHeight(image, l.pageWidth)
    requires l.tileCount == TileCount(l.pageHeight, l.tileHeight)
    ensures l.tileWidth as real <= l.pageWidth < l.tileWidth as real + 1.0
    ensures l.tileHeight as real <= ExactHeight(image, l.pageWidth) < l.tileHeight as real + 1.0
    ensures l.tileCount * l.tileHeight > l.pageHeight
    ensures (l.tileCount - 1) * l.tileHeight <= l.pageHeight
  {
    TileCoverage(l.pageHeight, l.tileHeight);
  }

  /** A 4000 x 6000 pixel image on a 2 ft wide, 13 ft high, 2 mm panel: a
      1739-point-wide tile 2609 points high, five of them for 11232 points. */
  lemma ThirteenFootExample()
    ensures TileLayout(ImageSize(4000, 6000), 2, 13, 2) == Ok(Layout(1739.3386, 11232, 1739, 2609, 5))
  {
    var x := 6000.0 * (1739.3386 / 4000.0);
    assert x == 2609.0079;
    assert x.Floor == 2609;
  }

  /** int() truncates the extended width, so the tile leaves a strip at the
      right edge uncovered: its width is the fractional part of the page
      width, 0.3386 pt with a 2 mm bleed and 0.0078 pt with a 3 mm bleed,
      whatever the panel width. The image never fills the whole page. */
  lemma UncoveredStrip(image: ImageSize, widthFt: nat, heightFt: nat, bleedMm: int)
    requires TileLayout(image, widthFt, heightFt, bleedMm).Ok?
    ensures var l := TileLayout(image, widthFt, heightFt, bleedMm).value;
      l.pageWidth - l.tileWidth as real == if bleedMm == 2 then 0.3386 else 0.0078
  {
    var base := FeetToPoints(widthFt) as real;
    var extended := ExtendedWidth(widthFt, bleedMm);
    if bleedMm == 2 {
      assert extended == base + 11.0 + 0.3386;
      FloorOfFraction(FeetToPoints(widthFt) + 11, 0.3386);
    } else {
      assert extended == base + 17.0 + 0.0078;
      FloorOfFraction(FeetToPoints(widthFt) + 17, 0.0078);
    }
  }

  lemma FloorOfFraction(n: int, f: real)
    requires 0.0 <= f < 1.0
    ensures (n as real + f).Floor == n
  {
  }

  /** The stack the tile loop draws: tile k sits at y = k * tile. */
  function TileStack(count: nat, width: int, tile: int): (s: seq<Placement>)
    ensures |s| == count
  {
    seq(count, k => Placement(k * tile, width, tile))
  }

  /** The tile loop of create_pdf: draw a tile at y_position, then move
      y_position up by one tile height. */
  method PlaceTiles(count: nat, width: int, tile: int) returns (drawn: seq<Placement>)
    ensures drawn == TileStack(count, width, tile)
  {
    drawn := [];
    var y := 0;
    for k := 0 to count
      invariant y == k * tile
      invariant drawn == TileStack(k, width, tile)
    {
      drawn := drawn + [Placement(y, width, tile)];
      y := y + tile;
    }
  }

  /** The stack starts at the bottom edge, every tile starts where the one
      below ends, and the top of the stack is count tiles high. */
  lemma {:induction false} StackContiguous(count: nat, width: int, tile: int)
    requires count > 0
    ensures var s := TileStack(count, width, tile);
      && s[0].y == 0
      && (forall k :: 0 <= k < count - 1 ==> s[k + 1].y == s[k].y + s[k].height)
      && s[count - 1].y + s[count - 1].height == count * tile
  {
    var s := TileStack(count, width, tile);
    forall k | 0 <= k < count - 1
      ensures s[k + 1].y == s[k].y + s[k].height
    {
      assert s[k + 1].y == (k + 1) * tile == k * tile + tile;
    }
    assert s[count - 1].y + tile == (count - 1) * tile + tile == count * tile;
  }

  /** Every height in [0, count * tile) lies in exactly one tile: no gaps and
      no overlaps. */
  lemma {:induction false} StackPartitions(count: nat, width: int, tile: int, y: int)
    requires tile > 0 && 0 <= y < count * tile
    ensures var s := TileStack(count, width, tile);
      && y / tile < count
      && s[y / tile].y <= y < s[y / tile].y + tile
      && (forall k :: 0 <= k < count && s[k].y <= y < s[k].y + tile ==> k == y / tile)
  {
    var s := TileStack(count, width, tile);
    var j := y / tile;
    assert j * tile <= y < (j + 1) * tile;
    ProductLess(j, count, tile);
    forall k | 0 <= k < count && s[k].y <= y < s[k].y + tile
      ensures k == j
    {
      assert k * tile <= y < (k + 1) * tile;
      ProductLess(k, j + 1, tile);
      ProductLess(j, k + 1, tile);
    }
  }

  lemma ProductLess(a: int, b: int, c: int)
    requires c > 0 && a * c < b * c
    ensures a < b
  {
    assert (b - a) * c == b * c - a * c > 0;
  }
}
