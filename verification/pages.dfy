/** What the scripts draw, as a log of operations per page, and the PyMuPDF
    document whose pages overlay_footer changes in place. ReportLab measures
    y upwards from the bottom edge (the tiles); PyMuPDF measures y downwards
    from the top edge (footer, text and logo rectangles). */
module Pages {
  import opened Tiling

  datatype Rect = Rect(x0: real, y0: real, x1: real, y1: real)

  datatype Point = Point(x: real, y: real)

  /** What an embedded page or image is taken from. */
  datatype Source =
    | PageOf(page: PageLog)            // a page of another open document, with its content
    | PdfPage(file: string)            // page 0 of a vector footer document
    | Raster(file: string, zoom: nat)  // a PNG rendered from a document at zoom x zoom

  datatype PageOp =
    | DrawTile(tile: Placement)                     // canvas.drawImage of the resized tile
    | ShowPage(rect: Rect, src: Source)             // page.show_pdf_page
    | InsertImage(rect: Rect, src: Source)          // page.insert_image
    | InsertText(at: Point, text: string, fontSize: nat)

  datatype PageLog = PageLog(width: Length, height: Length, ops: seq<PageOp>)

  /** A document written to disk: its file name and its pages. */
  datatype Saved = Saved(path: string, pages: seq<PageLog>)

  function TileOps(tiles: seq<Placement>): (ops: seq<PageOp>)
    ensures |ops| == |tiles|
    ensures forall k :: 0 <= k < |tiles| ==> ops[k] == DrawTile(tiles[k])
  {
    seq(|tiles|, k requires 0 <= k < |tiles| => DrawTile(tiles[k]))
  }

  /** The single page create_pdf writes to the temporary PDF. */
  function TiledPage(layout: Layout): PageLog
  {
    PageLog(layout.pageWidth, layout.pageHeight as real,
            TileOps(TileStack(layout.tileCount, layout.tileWidth, layout.tileHeight)))
  }

  /** The footer scaled to the full page width and set flush on the bottom
      edge. Its height over its width is the native height over the native
      width: the aspect ratio is kept. */
  function FooterBand(pageWidth: real, pageHeight: real, nativeWidth: real, nativeHeight: real): (band: Rect)
    requires nativeWidth > 0.0
    ensures band.x0 == 0.0 && band.x1 == pageWidth && band.y1 == pageHeight
    ensures (band.y1 - band.y0) * nativeWidth == nativeHeight * pageWidth
  {
    var footerHeight := nativeHeight * (pageWidth / nativeWidth);
    Rect(0.0, pageHeight - footerHeight, pageWidth, pageHeight)
  }

  /** Scaling both sides by a positive factor keeps their order. */
  lemma ScaleOrder(a: real, b: real, c: real)
    requires c > 0.0
    ensures a <= b <==> a * c <= b * c
  {
    assert b * c - a * c == (b - a) * c;
    if a <= b {
      assert (b - a) * c >= 0.0;
    } else {
      assert (a - b) * c > 0.0;
    }
  }

  /** An open PyMuPDF document; drawing on a page appends to its log. */
  class Document {
    var pages: seq<PageLog>

    constructor (pages: seq<PageLog>)
      ensures this.pages == pages
    {
      this.pages := pages;
    }

    /** Draw op on page i; every other page is left as it was. */
    method Stamp(i: nat, op: PageOp)
      requires i < |pages|
      modifies this
      ensures pages == old(pages)[i := old(pages)[i].(ops := old(pages)[i].ops + [op])]
    {
      pages := pages[i := pages[i].(ops := pages[i].ops + [op])];
    }
  }
}
