/** TIFF 6.0 vocabulary used by the TIFF codec, and the library types it maps tag values to. */
module Tiff {
  import opened Results

  type U16 = x: int | 0 <= x < 0x1_0000
  type U32 = x: int | 0 <= x < 0x1_0000_0000

  // Tag numbers (TIFF 6.0, sections 8, 15 and 19).
  const ImageWidthTag: nat := 256
  const ImageLengthTag: nat := 257
  const BitsPerSampleTag: nat := 258
  const CompressionTag: nat := 259
  const PhotometricTag: nat := 262
  const ImageDescriptionTag: nat := 270
  const SamplesPerPixelTag: nat := 277
  const PlanarConfigTag: nat := 284
  const TileWidthTag: nat := 322
  const TileLengthTag: nat := 323
  const SampleFormatTag: nat := 339

  // SampleFormat values (section 19).
  const SampleFormatUInt: U16 := 1
  const SampleFormatInt: U16 := 2
  const SampleFormatIEEEFP: U16 := 3
  const SampleFormatVoid: U16 := 4

  // PhotometricInterpretation values (section 8; YCbCr in section 21).
  const PhotometricMinIsWhite: U16 := 0
  const PhotometricMinIsBlack: U16 := 1
  const PhotometricRGB: U16 := 2
  const PhotometricPalette: U16 := 3
  const PhotometricYCbCr: U16 := 6

  // PlanarConfiguration values (section 8).
  const PlanarConfigContig: U16 := 1
  const PlanarConfigSeparate: U16 := 2

  /** One image file directory: the tag values the codec reads (None when the tag is
      absent) and whether the directory is tiled (`TIFFIsTiled`). */
  datatype Dir = Dir(
    imageWidth: Option<U32>,
    imageLength: Option<U32>,
    bitsPerSample: Option<U16>,
    compression: Option<U16>,
    photometric: Option<U16>,
    description: Option<string>,
    samplesPerPixel: Option<U16>,
    planarConfig: Option<U16>,
    tileWidth: Option<U32>,
    tileLength: Option<U32>,
    sampleFormat: Option<U16>,
    isTiled: bool)

  /** The sample type of an image (the four alternatives of `DType`). */
  datatype DType = UInt8 | UInt16 | UInt32 | Float

  /** The colour layout the codec derives from the photometric interpretation. */
  datatype Color = Monochrome | Indexed | RGB | ARGB

  /** (height, width), in pixels. */
  datatype Shape = Shape(height: nat, width: nat)

  /** One pyramid level: its full extent and its tile extent. */
  datatype LevelInfo = LevelInfo(shape: Shape, tileShape: Shape)

  /** The exceptions the codec throws. */
  datatype TiffError =
    | CannotOpen
    | MissingTag(tag: nat)
    | UnsupportedBitDepth(bits: U16)
    | UnsupportedDType
    | UnsupportedSamples(samples: U16)
    | InvalidColor
    | UnsupportedColorType
    | UnsupportedFormat(description: string)
    | NotTiled
    | NotContiguous
    | NoLevels

  /** `File::get<T>(tag)`: the tag's value, or a failure when the tag is absent. */
  function Get<T>(v: Option<T>, tag: nat): (r: Result<T, TiffError>)
    ensures r.Ok? <==> v.Some?
    ensures r.Ok? ==> r.value == v.value
    ensures r.Err? ==> r.error == MissingTag(tag)
  {
    if v.Some? then Ok(v.value) else Err(MissingTag(tag))
  }
}
