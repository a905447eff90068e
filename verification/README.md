# Lemon Park panel PDFs: geometry and naming

A Dafny model of the two panel scripts `LPsamples.py` and `samples.py`. Each
script turns one wallpaper design image into a print-ready, full-height
panel PDF, in two steps:

- `create_pdf` widens the panel by a bleed on each side, scales the image to
  that width and stacks copies of it up the panel height.
- `overlay_footer` draws a footer band on the bottom edge of the page, adds
  the design, material and height text and saves the result under
  `{design}_{substrate}_{height}ft_{bleed}mm.pdf`.

`LPsamples.py` embeds one shared vector footer, stamps three text lines at
fixed offsets, and copies the tiled page into a fresh document for 27 ft
panels. `samples.py` picks a footer document per panel height, renders it
and a logo to rasters (6x for 27 ft panels, 3x otherwise), centres the logo
in the band and writes one line of detail text on every page.

The modules follow the scripts:

- `Results`: `Option`, `Result` and the ways a run can fail (`PanelError`).
- `Text`: the Python string operations the names rely on. These are `str()`
  of an integer, `str.replace(pat, "")`, `str.split(sep)[0]`,
  `os.path.basename` and `os.path.splitext`.
- `Tiling`: feet to points, the bleed constants, the resized tile, the tile
  count, and the tile loop (`PlaceTiles`, a `for` loop proved against
  `TileStack`).
- `Pages`: a page as a log of drawing operations. The open PyMuPDF document
  is a class `Document` whose pages are updated in place by `Stamp`. The
  file also holds the bottom-anchored footer rectangle.
- `Naming`: the final and temporary file names, the material table, the
  height label, the detail text, the per-height footer asset and the
  design-name fallback.
- `LPSamples` and `Samples`: `create_pdf` and `overlay_footer` of each
  script, as methods over a `Document`.

Units and numbers:

- Lengths are points as exact `real`s, and the bleed constants are the
  scripts' own 5.6693 and 8.5039.
- Python's `int()` is applied only to non-negative values, so it is
  modelled as `.Floor`.
- Feet are `nat`. Every caller passes whole feet (2, 13, 27), so
  `total_height // new_height` is integer floor division.
- Files, fonts and the PDF libraries are not modelled:
  - Which asset files exist is a parameter (`assets`).
  - The image, footer page and pixmap sizes are parameters.
  - Drawing is recorded as a `PageOp` in the page's log.
- The scripts catch every exception and print it. The model returns an
  `Err` for each failure the arithmetic can hit instead:
  - zero image width (division in the scale factor);
  - a tile that truncates to zero height (the resize and the `//`);
  - a missing footer or logo;
  - a base document without pages;
  - a zero-width footer.

## Model

| member | source | states |
|---|---|---|
| Tiling.BleedConstants | LPsamples.py:33-36 | 5.6693 and 8.5039 are 2 mm and 3 mm in points (x * 72 / 25.4) to within 0.0001, and a bleed other than 2 mm uses the 3 mm constant |
| Tiling.FeetToPoints | LPsamples.py:154-155 | feet to points: ft * 12 * 72 |
| Tiling.BleedPoints | LPsamples.py:158 | 5.6693 pt when bleed_mm is 2, 8.5039 pt for any other value (see Tiling.BleedConstants) |
| Tiling.ExtendedWidth | LPsamples.py:161 | the panel width in points plus one bleed on each side (see Tiling.PageWidth) |
| Tiling.ScaledHeight | LPsamples.py:175-177 | int(img_height * (extended_width / img_width)), the floor of Tiling.ExactHeight for a non-zero image width |
| Tiling.TileCount | LPsamples.py:187 | total_height // new_height + 1 for a positive tile height (see Tiling.TileCoverage) |
| Tiling.PageWidth | LPsamples.py:154-161 | page width is 864 * width_ft plus two bleeds; every bleed value other than 2 gives the 3 mm page; the two pages differ by 5.6692 pt |
| Tiling.TileCoverage | LPsamples.py:186-187 | with tile > 0 the stack of total // tile + 1 tiles exceeds the panel height; the overshoot is at most one tile and is exactly one tile iff the tile divides the height; one tile fewer never exceeds the height |
| Tiling.TileLayout | LPsamples.py:153-187 | zero image width is an error, and a zero truncated tile height is an error exactly when it happens; otherwise the tile width and height are the floors of the extended width and of the proportional height, and the tile count covers the panel with at most one tile over |
| Tiling.LayoutBounds | samples.py:71-83 | the floor bounds on the tile width and height, and the coverage bounds of the tile count, for a computed layout |
| Tiling.ThirteenFootExample | LPsamples.py:153-187 | a 4000 x 6000 image on a 2 ft wide, 13 ft high, 2 mm panel gives a 1739.3386 pt page, 1739 x 2609 tiles and 5 of them for 11232 pt |
| Tiling.UncoveredStrip | LPsamples.py:173-177 | truncating the extended width leaves the right-most 0.3386 pt (2 mm bleed) or 0.0078 pt (3 mm bleed) of every page uncovered by the tiles, for every panel width |
| Tiling.TileStack | LPsamples.py:199-206 | the stack the loop draws has one placement per iteration |
| Tiling.PlaceTiles | samples.py:95-102 | the loop that adds the tile height to y_position after each draw produces tile k at y = k * tile, for every k below the count |
| Tiling.StackContiguous | LPsamples.py:199-206 | the first tile sits at y = 0, each tile starts where the one below ends, and the stack top is count * tile |
| Tiling.StackPartitions | LPsamples.py:199-206 | every height below the stack top lies in tile y // tile and in no other tile: no gaps and no overlaps |
| Pages.FooterBand | LPsamples.py:293-301 | the footer spans x from 0 to the page width, its bottom is the page height, and its height over the page width equals the native height over the native width |
| Pages.TiledPage | LPsamples.py:190-206 | the tiled page: extended width by panel height, holding one drawImage per tile of Tiling.TileStack in loop order |
| Pages.Document.constructor | LPsamples.py:277-278 | a new document holds the given pages |
| Pages.Document.Stamp | LPsamples.py:325-330 | drawing on page i appends the operation to that page and leaves every other page as it was |
| Text.Digit | LPsamples.py:262 | a decimal digit character |
| Text.NatToString | LPsamples.py:262 | str(n) is a non-empty run of decimal digits with no leading zero |
| Text.IntToString | LPsamples.py:262 | str(i) is non-empty, starts with '-' iff i is negative, and is digits after the first character |
| Text.ParseNatToString | LPsamples.py:262 | reading str(n) back as decimal gives n |
| Text.NatToStringInjective | LPsamples.py:262 | distinct heights print differently |
| Text.IntToStringInjective | LPsamples.py:262 | distinct bleed values print differently |
| Text.DigitRunUnique | LPsamples.py:262 | a digit run followed by a non-digit is split off unambiguously |
| Text.RemoveAll | LPsamples.py:258 | str.replace(pat, "") never lengthens the string |
| Text.RemoveAllAtStart | LPsamples.py:258 | an occurrence at the very start is dropped |
| Text.RemoveAllKeepsPrefix | LPsamples.py:258 | a prefix in which no occurrence of the pattern starts passes through the replacement unchanged |
| Text.Before | LPsamples.py:258 | split(sep)[0] is a prefix without sep, followed by sep whenever it is shorter than the string |
| Text.BeforeSeparator | LPsamples.py:258 | split(sep)[0] of a + sep + rest is a when a has no sep |
| Text.Basename | LPsamples.py:256 | basename is a suffix of the path without '/', preceded by '/' whenever it is shorter than the path |
| Text.BasenameAfterSlash | LPsamples.py:216 | the basename of dir + "/" + name is name when name has no '/' |
| Text.LastIndex | samples.py:169 | the position of the last occurrence of a character, or none when it does not occur |
| Text.Stem | samples.py:169 | splitext(name)[0] is a prefix of the name: either all of it, or the text before its last '.' when something other than dots precedes that '.' |
| Text.StemOfExtension | LPsamples.py:216 | the stem of base + "." + ext is base when ext has no '.' and base is not all dots |
| Naming.MaterialName | LPsamples.py:264-269 | TRAD, P&S and PP map to their full names, and a code is shown as it is exactly when it is not in the table |
| Naming.FinalName | LPsamples.py:262 | {design}_{substrate}_{h}ft_{bleed}mm.pdf, also samples.py:215 (see Naming.FinalNameInjective) |
| Naming.TempName | LPsamples.py:167 | temp_{h}ft_{substrate}_{bleed}mm.pdf, also samples.py:63 (see Naming.FallbackOfTempName) |
| Naming.HeightLabel | LPsamples.py:272 | {h}ft" (see Naming.HeightLabelInjective) |
| Naming.DetailText | samples.py:190 | {design} \| {substrate} \| {bleed}mm (see Naming.DetailTextInjective) |
| Naming.FooterAssetName | samples.py:131 | LemonPark{h}_Footer.pdf (see Naming.FooterAssetNameInjective) |
| Naming.ImageDesignName | LPsamples.py:216 | splitext(basename(image_path))[0] (see Naming.ImageDesignNameOf) |
| Naming.DesignFallback | LPsamples.py:254-258 | the fallback design name is the part of the stem, with every "temp_" removed, before its first underscore: a prefix without '_' that is followed by '_' whenever it is not the whole string |
| Naming.FinalNameInjective | LPsamples.py:260-262 | for one design, different (substrate, height, bleed) never share an output file name, when substrate codes have no underscore |
| Naming.HeightLabelInjective | LPsamples.py:271-272 | the height label names one height |
| Naming.FooterAssetNameInjective | samples.py:131 | each height selects its own footer document |
| Naming.DetailTextInjective | samples.py:190 | design, substrate and bleed can be read back from the detail text when design and substrate contain no '\|' |
| Naming.ImageDesignNameOf | LPsamples.py:214-216 | the design name taken from "dir/stem.ext" is stem |
| Naming.FallbackOfTempName | samples.py:167-171 | the fallback applied to the temporary name temp_{h}ft_{substrate}_{bleed}mm.pdf gives "{h}ft", not a design name |
| LPSamples.EnoughAtLowerDpi | LPsamples.py:142-148 | an image that passes the resolution check at some dpi passes it at every lower dpi |
| LPSamples.RequiredPixels | LPsamples.py:143-144 | int(ft * 12 * dpi), exact for whole feet and an integer dpi |
| LPSamples.LowResolution | LPsamples.py:147 | the warning fires iff the image is narrower or shorter than the required pixels (see LPSamples.EnoughAtLowerDpi) |
| LPSamples.TextAnchors | LPsamples.py:312-319 | the footer and the stamp positions do not depend on the text; design and material share x = W - 430 and the height sits at W - 155; design is above height, and height is above material; on a page at least 430 pt wide with a footer at least 65 pt high every stamp lies in the footer band |
| LPSamples.FooterOps | LPsamples.py:293-330 | the footer page in the bottom-anchored band, then design at (W - 430, y0 + 49), material at (W - 430, y0 + 65) and height at (W - 155, y0 + 55) in 12 pt, identical at LPsamples.py:352-389 (see LPSamples.TextAnchors) |
| LPSamples.Footed | LPsamples.py:352-389 | a page with FooterOps appended to what it already shows |
| LPSamples.MergedCopy | LPsamples.py:276-286 | a fresh page of the base page's size that shows the base page, content included, over its whole area |
| LPSamples.MergedShowsTiles | LPsamples.py:276-286 | the saved 27 ft page shows the tiled page itself, whose operations are the tile stack with tile k at y = k * tile; a different base page gives a different saved page |
| LPSamples.DrawFooter | LPsamples.py:352-389 | page i gains the footer page and the three stamps in order, and no other page changes |
| LPSamples.OverlayFooter | LPsamples.py:229-410 | the error cases in the order the script meets them; on success the saved name, and one saved page that ends with the same footer and stamps in both branches; a 27 ft panel gets a fresh page that shows the base page, content included, and leaves the base document unchanged, any other height is drawn on page 0 in place |
| LPSamples.CreatePdf | LPsamples.py:124-227 | the low-resolution warning is the resolution check; layout and footer errors propagate; on success the single page has the extended width and the panel height, holds the tile stack (for 27 ft, shows the tiled page holding it) and then the footer, and is saved under the final name of the given or image-derived design |
| Samples.LogoRect | samples.py:203-211 | the logo is 1.5 footer heights wide and 0.7 high, with equal left and right margins and equal top and bottom margins |
| Samples.ResolutionFactor | samples.py:152 | zoom 6 for a 27 ft panel and 3 otherwise, for the footer and the logo (samples.py:161) |
| Samples.FontSize | samples.py:200 | 18 pt for a 27 ft panel and 12 pt otherwise |
| Samples.FooterImageName | samples.py:154 | temp_footer_{h}ft.png |
| Samples.FooterHeight | samples.py:183 | pix_h * (page_width / pix_w), the footer scaled to the page width (see Pages.FooterBand) |
| Samples.Decorate | samples.py:173-211 | one page of the loop: footer raster, detail text and logo raster appended in that order (see Samples.DecorationGeometry) |
| Samples.DecorateAll | samples.py:173-211 | one decorated page per base page |
| Samples.DecorationGeometry | samples.py:173-211 | each page gains footer, text and logo: the footer spans the width on the bottom edge with the pixmap's aspect ratio; the text is at 0.75 W on the band's vertical middle; the logo is centred and inside the band vertically; zoom is 6 and font size 18 iff the panel is 27 ft, else 3 and 12 |
| Samples.LogoFitsAcross | samples.py:204-206 | the logo fits across the page iff the footer pixmap is at least 1.5 times as wide as it is high |
| Samples.FitsIff | samples.py:183-206 | dividing the logo-width inequality by the positive scale pageWidth / pixmap width |
| Samples.DrawDecoration | samples.py:193-211 | page i gains footer raster, detail text and logo raster in order, and no other page changes |
| Samples.OverlayFooter | samples.py:124-246 | a missing footer asset, then a missing logo, then a document without pages (which cannot be saved), then a zero-width pixmap are errors; otherwise every page is decorated in order in place and saved under the final name |
| Samples.CreatePdf | samples.py:35-122 | layout errors propagate, then a missing footer asset, a missing logo and a zero-width pixmap are reported as such; on success the single page has the extended width and the panel height and holds the tile stack followed by the decoration, saved under the final name of the given or image-derived design |

## Notes on the code's behaviour

- The stack of `total // tile + 1` tiles overshoots the panel height by
  exactly one whole tile when the tile height divides the panel height, and
  by less than one tile otherwise (`Tiling.TileCoverage`).
- In exact arithmetic a 2 ft wide panel with a 2 mm bleed is
  2 * 864 + 2 * 5.6693 = 1739.3386 pt wide (`Tiling.ThirteenFootExample`).
- The comment above the scale factor says the image fills the entire
  extended width, but `int()` truncates the tile width, so in exact
  arithmetic a strip of 0.3386 pt (2 mm) or 0.0078 pt (3 mm) at the right
  edge stays uncovered
  (`Tiling.UncoveredStrip`).
- `create_pdf` always passes a design name to `overlay_footer`, so the
  fallback on the base file name is not reached from it. On the temporary
  name it would give "{h}ft" rather than a design name
  (`Naming.FallbackOfTempName`).

## Left out

- Image enhancement (`enhance_image`): PIL filters on pixel values, nothing to state beyond the call.
- `optimize_raster_footer`: image extraction and resampling, and no code calls it.
- The pixels themselves:
  - The resized image is represented by its size.
  - Footer and logo rasters are represented by their file name and zoom.
  - The footer page is represented by its size in points.
- Rendering and saving options: ReportLab metadata setters, `showPage`/`save`, `preserveAspectRatio`, `keep_proportion`, and the PDF save settings, including the per-height settings of samples.py.
- Font registration and its Helvetica fallback, and `add_text_to_page` with its font fallbacks: the model records the text, its anchor and its size.
- File system work:
  - Existence checks are a set of available asset names.
  - Temporary files, their removal and the footer directory constants are not modelled.
- The `__main__` drivers: interactive input and the loop over substrates, heights and bleeds.
- Printed messages and the catch-all exception handlers: each failure becomes an `Err` result.
- IEEE-754 rounding, and the rounding of the page size when ReportLab writes it into the PDF: lengths are exact reals, so a value that rounds differently in floating point (for example a floor right at an integer) is not modelled.
- Text.Basename: models '/' as the only separator (POSIX `os.path`); the Windows '\\' separator of `ntpath` is not modelled.
- The per-page `bleed_points` of the samples.py loop is computed but never used, and is not modelled; `extended_tile_width` there is the page width, which the model uses for the footer width.
- PIL's behaviour on a zero-height resize is modelled as the `ZeroTileHeight` error, which also covers the division by zero in the tile count.
- The pixel size of the footer pixmap is an input, not derived from the zoom. For the logo the model records the target rectangle; `insert_image` keeps the logo's aspect ratio inside it, and where exactly the logo lands within the rectangle is not modelled.
