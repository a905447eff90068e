/** samples.py: a footer document per panel height, rendered to a raster and
    placed on every page together with one line of detail text and a logo
    centred in the footer band. 27 ft panels get a finer raster and a larger
    font. */
module Samples {
  import opened Results
  import opened Text
  import opened Tiling
  import opened Pages
  import opened Naming

  const LogoFile: string := "logo.pdf"
  const LogoImage: string := "temp_logo.png"

  /** The panel height that gets the finer raster and the larger font. */
  const TallestPanel: nat := 27

  /** The zoom at which the footer and the logo are rendered to pixels. */
  function ResolutionFactor(heightFt: nat): nat { if heightFt == TallestPanel then 6 else 3 }

  function FontSize(heightFt: nat): nat { if heightFt == TallestPanel then 18 else 12 }

  function FooterImageName(heightFt: nat): string { "temp_footer_" + NatToString(heightFt) + "ft.png" }

  /** The footer page rendered at ResolutionFactor: its size in pixels. */
  datatype Pixmap = Pixmap(width: nat, height: nat)

  /** footer_height = pix_h * (page_width / pix_w) */
  function FooterHeight(pageWidth: real, pixmap: Pixmap): real
    requires pixmap.width > 0
  {
    pixmap.height as real * (pageWidth / pixmap.width as real)
  }

  /** The logo: 1.5 footer heights wide, 0.7 footer heights high, centred
      across the page and within the footer band. */
  function LogoRect(pageWidth: real, top: real, footerHeight: real): (logo: Rect)
    ensures logo.x1 - logo.x0 == 1.5 * footerHeight && logo.y1 - logo.y0 == 0.7 * footerHeight
    ensures logo.x0 - 0.0 == pageWidth - logo.x1
    ensures logo.y0 - top == (top + footerHeight) - logo.y1
  {
    var width := footerHeight * 1.5;
    var height := footerHeight * 0.7;
    var x := (pageWidth - width) / 2.0;
    var y := top + (footerHeight - height) / 2.0;
    Rect(x, y, x + width, y + height)
  }

  /** One page of the overlay loop: footer raster, detail text, logo raster. */
  function Decorate(page: PageLog, heightFt: nat, pixmap: Pixmap, detail: string): PageLog
    requires pixmap.width > 0
  {
    var footerHeight := FooterHeight(page.width, pixmap);
    var band := FooterBand(page.width, page.height, pixmap.width as real, pixmap.height as real);
    page.(ops := page.ops + [
      InsertImage(band, Raster(FooterImageName(heightFt), ResolutionFactor(heightFt))),
      InsertText(Point(page.width * 0.75, band.y1 - footerHeight * 0.5), detail, FontSize(heightFt)),
      InsertImage(LogoRect(page.width, band.y0, footerHeight), Raster(LogoImage, ResolutionFactor(heightFt)))])
  }

  /** Every page in order, decorated. */
  function DecorateAll(pages: seq<PageLog>, heightFt: nat, pixmap: Pixmap, detail: string): (r: seq<PageLog>)
    requires pages == [] || pixmap.width > 0
    ensures |r| == |pages|
  {
    seq(|pages|, k requires 0 <= k < |pages| => Decorate(pages[k], heightFt, pixmap, detail))
  }

  /** What one decorated page gains. The footer spans the page width, sits on
      the bottom edge and keeps the pixmap's aspect ratio; the text starts at
      three quarters of the width on the band's vertical middle; the logo has
      equal margins left and right and above and below, so it lies within the
      band vertically; 27 ft panels get the 6x raster and the 18 pt font, all
      others 3x and 12 pt. */
  lemma DecorationGeometry(page: PageLog, heightFt: nat, pixmap: Pixmap, detail: string)
    requires pixmap.width > 0
    ensures var ops := Decorate(page, heightFt, pixmap, detail).ops[|page.ops|..];
      var band := ops[0].rect;
      var logo := ops[2].rect;
      && |ops| == 3
      && band.x0 == 0.0 && band.x1 == page.width && band.y1 == page.height
      && (band.y1 - band.y0) * pixmap.width as real == pixmap.height as real * page.width
      && ops[1].at == Point(0.75 * page.width, (band.y0 + band.y1) / 2.0)
      && ops[1].text == detail
      && logo.x1 - logo.x0 == 1.5 * (band.y1 - band.y0)
      && logo.y1 - logo.y0 == 0.7 * (band.y1 - band.y0)
      && logo.x0 - band.x0 == band.x1 - logo.x1
      && logo.y0 - band.y0 == band.y1 - logo.y1
      && band.y0 <= logo.y0 <= logo.y1 <= band.y1
      && (ops[1].fontSize == 18 <==> heightFt == 27) && (ops[1].fontSize != 18 ==> ops[1].fontSize == 12)
      && ops[0].src.zoom == ops[2].src.zoom == (if heightFt == 27 then 6 else 3)
  {
    var fh := FooterHeight(page.width, pixmap);
    var band := FooterBand(page.width, page.height, pixmap.width as real, pixmap.height as real);
    assert band.y1 - band.y0 == fh;
    assert page.width / pixmap.width as real >= 0.0;
    assert fh >= 0.0;
  }

  /** The logo fits across the page exactly when the footer pixmap is at least
      1.5 times as wide as it is high. */
  lemma {:induction false} LogoFitsAcross(pageWidth: real, pageHeight: real, pixmap: Pixmap)
    requires pixmap.width > 0 && pageWidth > 0.0
    ensures var fh := FooterHeight(pageWidth, pixmap);
      var logo := LogoRect(pageWidth, pageHeight - fh, fh);
      (0.0 <= logo.x0 && logo.x1 <= pageWidth) <==> 1.5 * pixmap.height as real <= pixmap.width as real
  {
    var w, h := pixmap.width as real, pixmap.height as real;
    var fh := FooterHeight(pageWidth, pixmap);
    var logo := LogoRect(pageWidth, pageHeight - fh, fh);
    assert logo.x0 == (pageWidth - 1.5 * fh) / 2.0 && logo.x1 == (pageWidth + 1.5 * fh) / 2.0;
    var fits := 0.0 <= logo.x0 && logo.x1 <= pageWidth;
    assert fits <==> 1.5 * fh <= pageWidth;
    FitsIff(h, w, pageWidth);
  }

  /** 1.5 * h * (pageWidth / w) <= pageWidth: divide both sides by the positive
      scale factor pageWidth / w. */
  lemma FitsIff(h: real, w: real, pageWidth: real)
    requires w > 0.0 && pageWidth > 0.0
    ensures 1.5 * (h * (pageWidth / w)) <= pageWidth <==> 1.5 * h <= w
  {
    var r := pageWidth / w;
    assert r * w == pageWidth && r > 0.0;
    ScaleOrder(1.5 * h, w, r);
    assert (1.5 * h) * r == 1.5 * (h * r);
    assert w * r == pageWidth;
  }

  /** overlay_footer: check both assets, then draw on every page of the base
      document in place, and save it under the final name. A zero-width pixmap
      fails on the first page, before anything is drawn, and a document
      without pages fails when it is saved. */
  method OverlayFooter(base: Document, heightFt: nat, substrate: string, designName: Option<string>,
                       basePath: string, bleedMm: int, assets: set<string>, pixmap: Pixmap)
    returns (r: Result<Saved>)
    modifies base
    ensures FooterAssetName(heightFt) !in assets ==> r == Err(FooterMissing)
    ensures FooterAssetName(heightFt) in assets && LogoFile !in assets ==> r == Err(LogoMissing)
    ensures FooterAssetName(heightFt) in assets && LogoFile in assets && old(base.pages) == [] ==>
              r == Err(NoPages)
    ensures FooterAssetName(heightFt) in assets && LogoFile in assets && old(base.pages) != [] && pixmap.width == 0 ==>
              r == Err(ZeroFooterWidth)
    ensures r.Ok? <==> FooterAssetName(heightFt) in assets && LogoFile in assets
                       && old(base.pages) != [] && pixmap.width > 0
    ensures r.Ok? ==>
      var design := if designName.Some? then designName.value else DesignFallback(basePath);
      && r.value.path == FinalName(design, substrate, heightFt, bleedMm)
      && r.value.pages == DecorateAll(old(base.pages), heightFt, pixmap, DetailText(design, substrate, bleedMm))
    ensures base.pages == if r.Ok? then r.value.pages else old(base.pages)
  {
    if FooterAssetName(heightFt) !in assets {
      return Err(FooterMissing);
    }
    if LogoFile !in assets {
      return Err(LogoMissing);
    }
    var design := if designName.Some? then designName.value else DesignFallback(basePath);
    var detail := DetailText(design, substrate, bleedMm);
    if base.pages == [] {
      // The loop would draw nothing, and PyMuPDF refuses to save a document
      // without pages.
      return Err(NoPages);
    }
    var i := 0;
    while i < |base.pages|
      invariant 0 <= i <= |base.pages| == |old(base.pages)|
      invariant i > 0 ==> pixmap.width > 0
      invariant forall k :: 0 <= k < i ==> base.pages[k] == Decorate(old(base.pages)[k], heightFt, pixmap, detail)
      invariant forall k :: i <= k < |base.pages| ==> base.pages[k] == old(base.pages)[k]
    {
      if pixmap.width == 0 {
        return Err(ZeroFooterWidth);
      }
      DrawDecoration(base, i, heightFt, pixmap, detail);
      i := i + 1;
    }
    r := Ok(Saved(FinalName(design, substrate, heightFt, bleedMm), base.pages));
  }

  /** Footer raster, detail text and logo raster, drawn on page i of doc. */
  method DrawDecoration(doc: Document, i: nat, heightFt: nat, pixmap: Pixmap, detail: string)
    requires i < |doc.pages| && pixmap.width > 0
    modifies doc
    ensures doc.pages == old(doc.pages)[i := Decorate(old(doc.pages)[i], heightFt, pixmap, detail)]
  {
    var width: real, height: real := doc.pages[i].width, doc.pages[i].height;
    var zoom := ResolutionFactor(heightFt);
    var footerHeight := FooterHeight(width, pixmap);
    var band := FooterBand(width, height, pixmap.width as real, pixmap.height as real);
    doc.Stamp(i, InsertImage(band, Raster(FooterImageName(heightFt), zoom)));
    doc.Stamp(i, InsertText(Point(width * 0.75, band.y1 - footerHeight * 0.5), detail, FontSize(heightFt)));
    doc.Stamp(i, InsertImage(LogoRect(width, band.y0, footerHeight), Raster(LogoImage, zoom)));
    assert doc.pages[i].ops == old(doc.pages)[i].ops + [
      InsertImage(band, Raster(FooterImageName(heightFt), zoom)),
      InsertText(Point(width * 0.75, band.y1 - footerHeight * 0.5), detail, FontSize(heightFt)),
      InsertImage(LogoRect(width, band.y0, footerHeight), Raster(LogoImage, zoom))];
  }

  /** create_pdf: tile the image up a bleed-extended page, then hand the
      temporary document to overlay_footer with the design name (the image's
      file stem when none is given). */
  method CreatePdf(imagePath: string, image: ImageSize, heightFt: nat, substrate: string, widthFt: nat,
                   designName: Option<string>, bleedMm: int, assets: set<string>, pixmap: Pixmap)
    returns (r: Result<Saved>)
    ensures var layout := TileLayout(image, widthFt, heightFt, bleedMm);
      && (layout.Err? ==> r == Err(layout.error))
      && (layout.Ok? && FooterAssetName(heightFt) !in assets ==> r == Err(FooterMissing))
      && (layout.Ok? && FooterAssetName(heightFt) in assets && LogoFile !in assets ==> r == Err(LogoMissing))
      && (layout.Ok? && FooterAssetName(heightFt) in assets && LogoFile in assets && pixmap.width == 0 ==>
            r == Err(ZeroFooterWidth))
      && (r.Ok? <==> layout.Ok? && FooterAssetName(heightFt) in assets && LogoFile in assets && pixmap.width > 0)
    ensures r.Ok? ==>
      var layout := TileLayout(image, widthFt, heightFt, bleedMm).value;
      var design := if designName.Some? then designName.value else ImageDesignName(imagePath);
      && r.value.path == FinalName(design, substrate, heightFt, bleedMm)
      && r.value.pages == [Decorate(TiledPage(layout), heightFt, pixmap, DetailText(design, substrate, bleedMm))]
      && r.value.pages[0].width == ExtendedWidth(widthFt, bleedMm)
      && r.value.pages[0].height == FeetToPoints(heightFt) as real
  {
    var layout := TileLayout(image, widthFt, heightFt, bleedMm);
    if layout.Err? {
      return Err(layout.error);
    }
    var tempPath := TempName(heightFt, substrate, bleedMm);
    var l := layout.value;
    var tiles := PlaceTiles(l.tileCount, l.tileWidth, l.tileHeight);
    var doc := new Document([PageLog(l.pageWidth, l.pageHeight as real, TileOps(tiles))]);
    var design := if designName.Some? then designName.value else ImageDesignName(imagePath);
    r := OverlayFooter(doc, heightFt, substrate, Some(design), tempPath, bleedMm, assets, pixmap);
  }
}
