/** Outcome types shared by every stage of the panel pipeline. */
module Results {

  datatype Option<+T> = None | Some(value: T)

  /** Why one panel combination produced no output file. The scripts report
      each of these with a message and move on to the next combination. */
  datatype PanelError =
    | ZeroImageWidth   // the scale factor divides by the image width
    | ZeroTileHeight   // the resized tile would be zero points high
    | FooterMissing    // the footer document is not in the asset directory
    | LogoMissing      // the logo document is not in the asset directory
    | NoPages          // the base document has no page to draw on or to save
    | ZeroFooterWidth  // the footer's aspect ratio divides by its width

  datatype Result<+T> = Ok(value: T) | Err(error: PanelError)
}
