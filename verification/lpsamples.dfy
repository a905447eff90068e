/** LPsamples.py: one shared vector footer (LPfooter.pdf) embedded as a page,
    three text stamps at fixed offsets, and a page-merging path for 27 ft
    panels. create_pdf also warns when the image is below the print
    resolution. */
module LPSamples {
  import opened Results
  import opened Text
  import opened Tiling
  import opened Pages
  import opened Naming

  const FooterFile: string := "LPfooter.pdf"
  const FontSize: nat := 12

  /** The panel height whose footer is applied by copying the tiled page into a
      fresh document instead of drawing on it in place. */
  const MergedHeight: nat := 27

  /** The first page of the footer document, in points. */
  datatype FooterPage = FooterPage(width: Length, height: Length)

  /** int(ft * 12 * dpi): pixels needed for ft feet at dpi dots per inch. */
  function RequiredPixels(ft: nat, dpi: int): int { ft * 12 * dpi }

  /** The condition of the "image is too small" warning. */
  predicate LowResolution(image: ImageSize, widthFt: nat, heightFt: nat, dpi: int)
  {
    image.width < RequiredPixels(widthFt, dpi) || image.height < RequiredPixels(heightFt, dpi)
  }

  /** An image big enough at some resolution is big enough at every lower one. */
  lemma {:induction false} EnoughAtLowerDpi(image: ImageSize, widthFt: nat, heightFt: nat, dpi: int, lower: int)
    requires 0 <= lower <= dpi
    requires !LowResolution(image, widthFt, heightFt, dpi)
    ensures !LowResolution(image, widthFt, heightFt, lower)
  {
    assert RequiredPixels(widthFt, dpi) - RequiredPixels(widthFt, lower) == widthFt * 12 * (dpi - lower) >= 0;
    assert RequiredPixels(heightFt, dpi) - RequiredPixels(heightFt, lower) == heightFt * 12 * (dpi - lower) >= 0;
  }

  /** The footer and the three text stamps, in the order overlay_footer draws
      them. The text sits at fixed offsets from the page's right edge and the
      footer's top edge, whatever the text says. */
  function FooterOps(pageWidth: real, pageHeight: real, footer: FooterPage,
                     design: string, material: string, heightText: string): (ops: seq<PageOp>)
    requires footer.width > 0.0
  {
    var band := FooterBand(pageWidth, pageHeight, footer.width, footer.height);
    [ ShowPage(band, PdfPage(FooterFile)),
      InsertText(Point(pageWidth - 430.0, band.y0 + 49.0), design, FontSize),
      InsertText(Point(pageWidth - 430.0, band.y0 + 65.0), material, FontSize),
      InsertText(Point(pageWidth - 155.0, band.y0 + 55.0), heightText, FontSize) ]
  }

  /** The page with the footer and its text drawn on top. */
  function Footed(page: PageLog, footer: FooterPage, design: string, material: string, heightText: string): PageLog
    requires footer.width > 0.0
  {
    page.(ops := page.ops + FooterOps(page.width, page.height, footer, design, material, heightText))
  }

  /** A fresh page of the same size showing the given page, content and all,
      across its full area. */
  function MergedCopy(page: PageLog): PageLog
  {
    PageLog(page.width, page.height, [ShowPage(Rect(0.0, 0.0, page.width, page.height), PageOf(page))])
  }

  /** The 27 ft page shows the tiled page itself: the shown page carries the
      whole tile stack, tile k at y = k * tile, and different tiled pages give
      different saved pages. */
  lemma MergedShowsTiles(layout: Layout, footer: FooterPage, design: string, material: string, heightText: string,
                         other: PageLog)
    requires footer.width > 0.0
    ensures var saved := Footed(MergedCopy(TiledPage(layout)), footer, design, material, heightText);
      && saved.ops[0] == ShowPage(Rect(0.0, 0.0, layout.pageWidth, layout.pageHeight as real), PageOf(TiledPage(layout)))
      && |saved.ops[0].src.page.ops| == layout.tileCount
      && (forall k :: 0 <= k < layout.tileCount ==>
            saved.ops[0].src.page.ops[k] == DrawTile(Placement(k * layout.tileHeight, layout.tileWidth, layout.tileHeight)))
    ensures other != TiledPage(layout) ==>
      Footed(MergedCopy(other), footer, design, material, heightText) != Footed(MergedCopy(TiledPage(layout)), footer, design, material, heightText)
  {
    var tiled := TiledPage(layout);
    var saved := Footed(MergedCopy(tiled), footer, design, material, heightText);
    assert saved.ops[0] == MergedCopy(tiled).ops[0];
    if other != tiled {
      var saved' := Footed(MergedCopy(other), footer, design, material, heightText);
      assert saved'.ops[0] == MergedCopy(other).ops[0];
    }
  }

  /** Where the stamps land. The positions do not depend on the text, the
      design name and the material line share a left edge 430 pt from the
      right, and on a page at least 430 pt wide whose footer is at least 65 pt
      high every stamp lies inside the footer band. */
  lemma TextAnchors(pageWidth: real, pageHeight: real, footer: FooterPage,
                    design: string, material: string, heightText: string,
                    design': string, material': string, heightText': string)
    requires footer.width > 0.0
    ensures var ops := FooterOps(pageWidth, pageHeight, footer, design, material, heightText);
      var ops' := FooterOps(pageWidth, pageHeight, footer, design', material', heightText');
      && ops[0] == ops'[0]
      && (forall k :: 1 <= k < 4 ==> ops[k].at == ops'[k].at && ops[k].fontSize == FontSize)
    ensures var ops := FooterOps(pageWidth, pageHeight, footer, design, material, heightText);
      var band := ops[0].rect;
      && ops[1].at.x == ops[2].at.x == band.x1 - 430.0
      && ops[3].at.x == band.x1 - 155.0
      && ops[1].at.y < ops[3].at.y < ops[2].at.y
      && (pageWidth >= 430.0 && band.y1 - band.y0 >= 65.0 ==>
            forall k :: 1 <= k < 4 ==>
              band.x0 <= ops[k].at.x <= band.x1 && band.y0 <= ops[k].at.y <= band.y1)
  {
  }

  /** overlay_footer. A 27 ft panel gets a new single-page document that shows
      the tiled page and then the footer; any other height has the footer drawn
      on its first page in place. Either way the saved page ends with the same
      footer rectangle and the same three stamps. */
  method OverlayFooter(base: Document, heightFt: nat, substrate: string, designName: Option<string>,
                       basePath: string, bleedMm: int, assets: set<string>, footer: FooterPage)
    returns (r: Result<Saved>)
    modifies base
    ensures FooterFile !in assets ==> r == Err(FooterMissing)
    ensures FooterFile in assets && old(base.pages) == [] ==> r == Err(NoPages)
    ensures FooterFile in assets && old(base.pages) != [] && footer.width == 0.0 ==> r == Err(ZeroFooterWidth)
    ensures r.Ok? <==> FooterFile in assets && old(base.pages) != [] && footer.width > 0.0
    ensures r.Ok? ==>
      var page := old(base.pages)[0];
      var design := if designName.Some? then designName.value else DesignFallback(basePath);
      var finished := Footed(if heightFt == MergedHeight then MergedCopy(page) else page,
                             footer, design, MaterialName(substrate), HeightLabel(heightFt));
      && r.value.path == FinalName(design, substrate, heightFt, bleedMm)
      && r.value.pages == if heightFt == MergedHeight then [finished] else old(base.pages)[0 := finished]
    ensures base.pages == if r.Ok? && heightFt != MergedHeight then r.value.pages else old(base.pages)
  {
    if FooterFile !in assets {
      return Err(FooterMissing);
    }
    if base.pages == [] {
      return Err(NoPages);
    }
    var page := base.pages[0];
    var width, height := page.width, page.height;
    var design := if designName.Some? then designName.value else DesignFallback(basePath);
    var finalPath := FinalName(design, substrate, heightFt, bleedMm);
    var material := MaterialName(substrate);
    var heightText := HeightLabel(heightFt);
    if heightFt == MergedHeight {
      var merged := new Document([PageLog(width, height, [])]);
      merged.Stamp(0, ShowPage(Rect(0.0, 0.0, width, height), PageOf(page)));
      assert merged.pages[0].ops == [ShowPage(Rect(0.0, 0.0, width, height), PageOf(page))];
      assert merged.pages == [MergedCopy(page)];
      if footer.width == 0.0 {
        return Err(ZeroFooterWidth);
      }
      DrawFooter(merged, 0, footer, design, material, heightText);
      r := Ok(Saved(finalPath, merged.pages));
    } else {
      if footer.width == 0.0 {
        return Err(ZeroFooterWidth);
      }
      DrawFooter(base, 0, footer, design, material, heightText);
      r := Ok(Saved(finalPath, base.pages));
    }
  }

  /** The footer page and the three insert_text calls, drawn on page i of doc. */
  method DrawFooter(doc: Document, i: nat, footer: FooterPage, design: string, material: string, heightText: string)
    requires i < |doc.pages| && footer.width > 0.0
    modifies doc
    ensures doc.pages == old(doc.pages)[i := Footed(old(doc.pages)[i], footer, design, material, heightText)]
  {
    var width: real, height: real := doc.pages[i].width, doc.pages[i].height;
    var band := FooterBand(width, height, footer.width, footer.height);
    doc.Stamp(i, ShowPage(band, PdfPage(FooterFile)));
    doc.Stamp(i, InsertText(Point(width - 430.0, band.y0 + 49.0), design, FontSize));
    doc.Stamp(i, InsertText(Point(width - 430.0, band.y0 + 65.0), material, FontSize));
    doc.Stamp(i, InsertText(Point(width - 155.0, band.y0 + 55.0), heightText, FontSize));
    assert doc.pages[i].ops == old(doc.pages)[i].ops + FooterOps(width, height, footer, design, material, heightText);
  }

  /** create_pdf: warn about a small image, tile it up a bleed-extended page,
      then hand the temporary document to overlay_footer with the design name
      (the image's file stem when none is given). */
  method CreatePdf(imagePath: string, image: ImageSize, heightFt: nat, substrate: string, widthFt: nat,
                   dpi: int, designName: Option<string>, bleedMm: int, assets: set<string>, footer: FooterPage)
    returns (lowResolution: bool, r: Result<Saved>)
    ensures lowResolution == LowResolution(image, widthFt, heightFt, dpi)
    ensures var layout := TileLayout(image, widthFt, heightFt, bleedMm);
      && (layout.Err? ==> r == Err(layout.error))
      && (layout.Ok? && FooterFile !in assets ==> r == Err(FooterMissing))
      && (layout.Ok? && FooterFile in assets && footer.width == 0.0 ==> r == Err(ZeroFooterWidth))
      && (r.Ok? <==> layout.Ok? && FooterFile in assets && footer.width > 0.0)
    ensures r.Ok? ==>
      var layout := TileLayout(image, widthFt, heightFt, bleedMm).value;
      var design := if designName.Some? then designName.value else ImageDesignName(imagePath);
      var tiled := TiledPage(layout);
      && r.value.path == FinalName(design, substrate, heightFt, bleedMm)
      && r.value.pages == [Footed(if heightFt == MergedHeight then MergedCopy(tiled) else tiled,
                                  footer, design, MaterialName(substrate), HeightLabel(heightFt))]
      && r.value.pages[0].width == ExtendedWidth(widthFt, bleedMm)
      && r.value.pages[0].height == FeetToPoints(heightFt) as real
  {
    lowResolution := LowResolution(image, widthFt, heightFt, dpi);
    var layout := TileLayout(image, widthFt, heightFt, bleedMm);
    if layout.Err? {
      return lowResolution, Err(layout.error);
    }
    var tempPath := TempName(heightFt, substrate, bleedMm);
    var l := layout.value;
    var tiles := PlaceTiles(l.tileCount, l.tileWidth, l.tileHeight);
    var doc := new Document([PageLog(l.pageWidth, l.pageHeight as real, TileOps(tiles))]);
    var design := if designName.Some? then designName.value else ImageDesignName(imagePath);
    r := OverlayFooter(doc, heightFt, substrate, Some(design), tempPath, bleedMm, assets, footer);
  }
}
