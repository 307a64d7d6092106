/** The draw options a blit is given (Blitter::Options), reduced to what this model uses. */
module BlitOptions {
  import opened Geometry
  import opened Pixels

  datatype Option<T> = None | Some(value: T)

  /** OPAQUE and ALPHA are the modes the blitter tells apart; every other mode is `OtherMode`. */
  datatype BlendMode = Opaque | Alpha | OtherMode

  datatype SamplingMode = Point | Bilinear

  /**
   * A present mTransform. The 2x2 matrix and its inverse enter the blitter only
   * through float arithmetic; what remains in this model is the integer
   * bounding box of the transformed sprite corners that applyCropping derives
   * from them.
   */
  datatype Transform = Transform(screenBounds: Recti)

  datatype Options = Options(
    blendMode: BlendMode,
    samplingMode: SamplingMode,
    transform: Option<Transform>,
    tint: Option<TintMult>,     // mTintColor, already turned into the four 8.8 multipliers
    added: Option<AddRgb>,      // mAddedColor, already turned into three bytes
    swapRedBlue: bool)          // mSwapRedBlueChannels
}
