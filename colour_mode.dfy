/**
 * The colour-mode normalisation that `convert` applies to every decoded
 * image before it is encoded as WebP (main.py, lines 63-74).
 *
 * A mode is the image library's mode string ("RGB", "RGBA", "LA", "P",
 * "L", "CMYK", ...). The flag `hasTransparency` says whether the image's
 * info dictionary carries a "transparency" entry.
 */
module ColourMode {

  /** What the normalisation does to an image of a given mode. */
  datatype Action = Keep | ConvertTo(target: string)

  /** The modes in which an image is handed to the WebP encoder. */
  predicate IsEncodable(mode: string) {
    mode == "RGB" || mode == "RGBA" || mode == "LA"
  }

  /**
   * The image library's modes that carry an alpha channel: straight alpha
   * (RGBA, LA, PA) and premultiplied alpha (RGBa, La).
   */
  predicate HasAlpha(mode: string) {
    mode == "RGBA" || mode == "LA" || mode == "PA" || mode == "RGBa" || mode == "La"
  }

  /**
   * The decision table. RGBA, LA and RGB images are left as they are;
   * palette images are promoted to RGBA when they declare transparency and
   * to RGB otherwise; every other mode is converted to RGB.
   */
  function Normalisation(mode: string, hasTransparency: bool): (a: Action)
    ensures a.Keep? <==> IsEncodable(mode)
    ensures a.ConvertTo? ==> a.target == "RGB" || a.target == "RGBA"
  {
    if mode == "RGBA" || mode == "LA" then Keep
    else if mode == "P" then
      (if hasTransparency then ConvertTo("RGBA") else ConvertTo("RGB"))
    else if mode != "RGB" && mode != "RGBA" then ConvertTo("RGB")
    else Keep
  }

  /** The mode of the image that is passed to the encoder. */
  function EncodedMode(mode: string, hasTransparency: bool): (r: string)
    ensures IsEncodable(r)
    ensures IsEncodable(mode) ==> r == mode
  {
    match Normalisation(mode, hasTransparency)
    case Keep => mode
    case ConvertTo(target) => target
  }

  /** RGBA and LA images are passed through with no conversion. */
  lemma AlphaModesKept(mode: string, hasTransparency: bool)
    requires mode == "RGBA" || mode == "LA"
    ensures Normalisation(mode, hasTransparency) == Keep
    ensures EncodedMode(mode, hasTransparency) == mode
  {
  }

  /** A palette image becomes RGBA exactly when it declares transparency, and RGB otherwise. */
  lemma PaletteDecision(hasTransparency: bool)
    ensures Normalisation("P", hasTransparency) == ConvertTo(if hasTransparency then "RGBA" else "RGB")
    ensures EncodedMode("P", hasTransparency) == "RGBA" <==> hasTransparency
    ensures EncodedMode("P", hasTransparency) == "RGB" <==> !hasTransparency
  {
  }

  /** RGB is kept; a mode outside RGB, RGBA, LA and P is always converted to RGB. */
  lemma OtherModesBecomeRgb(mode: string, hasTransparency: bool)
    ensures mode == "RGB" ==> Normalisation(mode, hasTransparency) == Keep
    ensures mode != "RGB" && mode != "RGBA" && mode != "LA" && mode != "P" ==>
      Normalisation(mode, hasTransparency) == ConvertTo("RGB")
  {
  }

  /** The transparency flag is consulted only for palette images. */
  lemma TransparencyOnlyMattersForPalette(mode: string)
    ensures mode != "P" ==> Normalisation(mode, true) == Normalisation(mode, false)
    ensures mode == "P" ==> Normalisation(mode, true) != Normalisation(mode, false)
  {
  }

  /**
   * The saved image has an alpha channel exactly when the input was RGBA or
   * LA, or a palette image declaring transparency. Alpha is never added to
   * any other image.
   */
  lemma AlphaPreserved(mode: string, hasTransparency: bool)
    ensures HasAlpha(EncodedMode(mode, hasTransparency)) <==>
      mode == "RGBA" || mode == "LA" || (mode == "P" && hasTransparency)
  {
  }

  /**
   * Outside RGBA, LA and P, whatever transparency the input has is dropped:
   * PA, RGBa and La lose their alpha channel, and a key colour declared by a
   * "transparency" entry of an L, I or RGB image is not carried over.
   */
  lemma TransparencyDroppedOutsidePalette(mode: string, hasTransparency: bool)
    requires mode != "RGBA" && mode != "LA" && mode != "P"
    ensures EncodedMode(mode, hasTransparency) == "RGB"
    ensures !HasAlpha(EncodedMode(mode, hasTransparency))
  {
  }

  /** Normalising an already normalised mode changes nothing, whatever the flag says. */
  lemma NormalisationIdempotent(mode: string, t1: bool, t2: bool)
    ensures Normalisation(EncodedMode(mode, t1), t2) == Keep
    ensures EncodedMode(EncodedMode(mode, t1), t2) == EncodedMode(mode, t1)
  {
  }
}
