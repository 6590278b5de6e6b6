/** The TIFF codec: normalisation of directory tags into the library's sample type,
    colour layout and pyramid, and the validation done when a TIFF file is opened.
    A file is the sequence of its image file directories; directory 0 is the one
    the file is positioned on after opening. */
module TiffCodec {
  import opened Results
  import opened Strings
  import opened Tiff

  /** SampleFormat as read by `get_dtype`: an absent tag counts as unsigned integer. */
  function SampleFormatOf(d: Dir): (f: U16)
    ensures d.sampleFormat.None? ==> f == SampleFormatUInt
    ensures d.sampleFormat.Some? ==> f == d.sampleFormat.value
  {
    d.sampleFormat.GetOr(SampleFormatUInt)
  }

  /** The one (SampleFormat, BitsPerSample) pair that stands for each sample type. */
  function Encoding(t: DType): (U16, U16) {
    match t
    case UInt8 => (SampleFormatUInt, 8)
    case UInt16 => (SampleFormatUInt, 16)
    case UInt32 => (SampleFormatUInt, 32)
    case Float => (SampleFormatIEEEFP, 32)
  }

  /** `detail::get_dtype`: the sample type is the one whose encoding is the directory's
      (SampleFormat, BitsPerSample); every other pair fails. */
  function GetDType(d: Dir): (r: Result<DType, TiffError>)
    ensures d.bitsPerSample.None? ==> r == Err(MissingTag(BitsPerSampleTag))
    ensures r.Ok? ==> d.bitsPerSample.Some? && Encoding(r.value) == (SampleFormatOf(d), d.bitsPerSample.value)
    ensures forall t :: d.bitsPerSample.Some? && Encoding(t) == (SampleFormatOf(d), d.bitsPerSample.value) ==> r == Ok(t)
    ensures d.bitsPerSample.Some? && SampleFormatOf(d) != SampleFormatUInt && SampleFormatOf(d) != SampleFormatIEEEFP ==>
      r == Err(UnsupportedDType)
    ensures d.bitsPerSample.Some? && (SampleFormatOf(d) == SampleFormatUInt || SampleFormatOf(d) == SampleFormatIEEEFP) && r.Err? ==>
      r == Err(UnsupportedBitDepth(d.bitsPerSample.value))
  {
    var bits :- Get(d.bitsPerSample, BitsPerSampleTag);
    var format := SampleFormatOf(d);
    if format == SampleFormatIEEEFP then
      if bits == 32 then Ok(Float) else Err(UnsupportedBitDepth(bits))
    else if format == SampleFormatUInt then
      if bits == 32 then Ok(UInt32)
      else if bits == 16 then Ok(UInt16)
      else if bits == 8 then Ok(UInt8)
      else Err(UnsupportedBitDepth(bits))
    else Err(UnsupportedDType)
  }

  /** `detail::get_ctype`. YCbCr fixes the sample count at 4 without reading
      SamplesPerPixel; every other photometric value reads it first. */
  function GetCType(d: Dir): (r: Result<Color, TiffError>)
    ensures d.photometric.None? ==> r == Err(MissingTag(PhotometricTag))
    ensures r == Ok(Monochrome) <==>
      d.photometric == Some(PhotometricMinIsBlack) && d.samplesPerPixel == Some(1)
    ensures r == Ok(Indexed) <==>
      d.photometric == Some(PhotometricMinIsBlack) && d.samplesPerPixel.Some? && d.samplesPerPixel.value != 1
    ensures r == Ok(RGB) <==>
      d.photometric == Some(PhotometricRGB) && d.samplesPerPixel == Some(3)
    ensures r == Ok(ARGB) <==>
      d.photometric == Some(PhotometricYCbCr) || (d.photometric == Some(PhotometricRGB) && d.samplesPerPixel == Some(4))
    ensures d.photometric.Some? && d.photometric.value != PhotometricYCbCr && d.samplesPerPixel.None? ==>
      r == Err(MissingTag(SamplesPerPixelTag))
    ensures d.photometric == Some(PhotometricRGB) && d.samplesPerPixel.Some? && d.samplesPerPixel.value != 3 && d.samplesPerPixel.value != 4 ==>
      r == Err(UnsupportedSamples(d.samplesPerPixel.value))
    ensures d.photometric.Some? && d.samplesPerPixel.Some? &&
      d.photometric.value !in {PhotometricMinIsBlack, PhotometricRGB, PhotometricYCbCr}
      ==> r == Err(UnsupportedColorType)
    ensures r != Err(InvalidColor)
  {
    var ctype :- Get(d.photometric, PhotometricTag);
    var samples: U16 :- if ctype != PhotometricYCbCr then Get(d.samplesPerPixel, SamplesPerPixelTag) else Ok(4);
    if ctype == PhotometricMinIsBlack then
      Ok(if samples == 1 then Monochrome else Indexed)
    else if ctype == PhotometricRGB then
      if samples == 3 then Ok(RGB)
      else if samples == 4 then Ok(ARGB)
      else Err(UnsupportedSamples(samples))
    else if ctype == PhotometricYCbCr then
      if samples != 4 then Err(InvalidColor) else Ok(ARGB)
    else Err(UnsupportedColorType)
  }

  /** The level a tiled directory describes: (ImageLength, ImageWidth) with tile
      (TileLength, TileWidth), the four tags read in that order. */
  function LevelOf(d: Dir): (r: Result<LevelInfo, TiffError>)
    ensures r.Ok? <==> d.imageLength.Some? && d.imageWidth.Some? && d.tileLength.Some? && d.tileWidth.Some?
    ensures r.Ok? ==>
      && r.value.shape == Shape(d.imageLength.value, d.imageWidth.value)
      && r.value.tileShape == Shape(d.tileLength.value, d.tileWidth.value)
    ensures d.imageLength.None? ==> r == Err(MissingTag(ImageLengthTag))
    ensures d.imageLength.Some? && d.imageWidth.None? ==> r == Err(MissingTag(ImageWidthTag))
  {
    var height :- Get(d.imageLength, ImageLengthTag);
    var width :- Get(d.imageWidth, ImageWidthTag);
    var tileHeight :- Get(d.tileLength, TileLengthTag);
    var tileWidth :- Get(d.tileWidth, TileWidthTag);
    Ok(LevelInfo(Shape(height, width), Shape(tileHeight, tileWidth)))
  }

  /** The tiled directories of `ds`, in order. */
  function TiledOnly(ds: seq<Dir>): (r: seq<Dir>)
    ensures |r| <= |ds|
    ensures forall k :: 0 <= k < |r| ==> r[k].isTiled
    ensures |ds| > 0 && ds[0].isTiled ==> |r| > 0 && r[0] == ds[0]
  {
    if |ds| == 0 then []
    else if ds[0].isTiled then [ds[0]] + TiledOnly(ds[1..])
    else TiledOnly(ds[1..])
  }

  /** Directory `i` is the first tiled directory of `ds` whose level cannot be read. */
  predicate FirstBadLevel(ds: seq<Dir>, i: int) {
    && 0 <= i < |ds| && ds[i].isTiled && LevelOf(ds[i]).Err?
    && forall j :: 0 <= j < i && ds[j].isTiled ==> LevelOf(ds[j]).Ok?
  }

  /** The body of the `read_pyramid` loop over `ds`: untiled directories are skipped,
      every tiled one contributes its level, and the first tiled directory lacking a
      geometry tag aborts the walk with that tag's error. */
  function Pyramid(ds: seq<Dir>): (r: Result<seq<LevelInfo>, TiffError>)
    ensures r.Ok? <==> forall i :: 0 <= i < |ds| && ds[i].isTiled ==> LevelOf(ds[i]).Ok?
    ensures r.Ok? ==>
      && |r.value| == |TiledOnly(ds)|
      && forall k :: 0 <= k < |r.value| ==> LevelOf(TiledOnly(ds)[k]) == Ok(r.value[k])
    ensures r.Err? ==> exists i :: FirstBadLevel(ds, i) && LevelOf(ds[i]) == Err(r.error)
    decreases |ds|
  {
    if |ds| == 0 then Ok([])
    else
      var rest := Pyramid(ds[1..]);
      assert forall i :: 1 <= i < |ds| ==> ds[1..][i - 1] == ds[i];
      if !ds[0].isTiled then rest
      else
        var level :- LevelOf(ds[0]);
        var levels :- rest;
        Ok([level] + levels)
  }

  /** `uint16_t level_count = TIFFNumberOfDirectories(f)`: the count wraps modulo 2^16. */
  function DirectoryCount(dirs: seq<Dir>): (n: U16)
    ensures n <= |dirs|
    ensures |dirs| < 0x1_0000 ==> n == |dirs|
  {
    |dirs| % 0x1_0000
  }

  /** `detail::read_pyramid`: fails when the (wrapped) directory count is 0, otherwise
      walks directories 0 .. count-1 in order and keeps the tiled ones. */
  function ReadPyramid(dirs: seq<Dir>): (r: Result<seq<LevelInfo>, TiffError>)
    ensures r == Err(NoLevels) <==> DirectoryCount(dirs) == 0
    ensures r.Ok? <==> (DirectoryCount(dirs) > 0 &&
      forall i :: 0 <= i < DirectoryCount(dirs) && dirs[i].isTiled ==> LevelOf(dirs[i]).Ok?)
    ensures r.Ok? ==>
      var walked := TiledOnly(dirs[..DirectoryCount(dirs)]);
      && |r.value| == |walked| <= |dirs|
      && forall k :: 0 <= k < |r.value| ==> LevelOf(walked[k]) == Ok(r.value[k])
    ensures r.Ok? && dirs[0].isTiled ==> |r.value| > 0 && LevelOf(dirs[0]) == Ok(r.value[0])
  {
    var count := DirectoryCount(dirs);
    if count < 1 then Err(NoLevels)
    else
      var walked := dirs[..count];
      assert forall i :: 0 <= i < count ==> walked[i] == dirs[i];
      Pyramid(walked)
  }

  /** The description deny-list: case-sensitive "DICOM", "xml" or "XML" anywhere. */
  predicate Denied(description: string) {
    Contains(description, "DICOM") || Contains(description, "xml") || Contains(description, "XML")
  }

  /** The member initialisers of `Tiff::Tiff` succeed: sample type, colour layout and
      compression are all read from the directory. */
  predicate FieldsRead(d: Dir) {
    GetDType(d).Ok? && GetCType(d).Ok? && d.compression.Some?
  }

  /** An absent description is never rejected. */
  predicate DescriptionAllowed(d: Dir) {
    d.description.None? || !Denied(d.description.value)
  }

  /** Every check before the planar-configuration check passes on directory 0. */
  predicate ReachesPlanar(dirs: seq<Dir>) {
    |dirs| > 0 && FieldsRead(dirs[0]) && DescriptionAllowed(dirs[0]) && dirs[0].isTiled
  }

  /** An opened TIFF codec: its sample type, colour layout, compression scheme and levels. */
  datatype TiffImage = TiffImage(dtype: DType, color: Color, compression: U16, levels: seq<LevelInfo>)

  /** `Tiff::Tiff`: the checks run in source order and the first failure is the error. */
  function Open(dirs: seq<Dir>): (r: Result<TiffImage, TiffError>)
    ensures |dirs| == 0 ==> r == Err(CannotOpen)
    ensures |dirs| > 0 && GetDType(dirs[0]).Err? ==> r == Err(GetDType(dirs[0]).error)
    ensures |dirs| > 0 && GetDType(dirs[0]).Ok? && GetCType(dirs[0]).Err? ==> r == Err(GetCType(dirs[0]).error)
    ensures |dirs| > 0 && GetDType(dirs[0]).Ok? && GetCType(dirs[0]).Ok? && dirs[0].compression.None? ==>
      r == Err(MissingTag(CompressionTag))
    ensures |dirs| > 0 && FieldsRead(dirs[0]) && !DescriptionAllowed(dirs[0]) ==>
      r == Err(UnsupportedFormat(dirs[0].description.value))
    ensures |dirs| > 0 && FieldsRead(dirs[0]) && DescriptionAllowed(dirs[0]) && !dirs[0].isTiled ==>
      r == Err(NotTiled)
    ensures ReachesPlanar(dirs) && dirs[0].planarConfig.None? ==> r == Err(MissingTag(PlanarConfigTag))
    ensures ReachesPlanar(dirs) && dirs[0].planarConfig.Some? && dirs[0].planarConfig.value != PlanarConfigContig ==>
      r == Err(NotContiguous)
    ensures ReachesPlanar(dirs) && dirs[0].planarConfig == Some(PlanarConfigContig) ==>
      if ReadPyramid(dirs).Err? then r == Err(ReadPyramid(dirs).error) else r.Ok?
    ensures r.Ok? ==>
      && |dirs| > 0
      && GetDType(dirs[0]) == Ok(r.value.dtype)
      && GetCType(dirs[0]) == Ok(r.value.color)
      && dirs[0].compression == Some(r.value.compression)
      && DescriptionAllowed(dirs[0])
      && dirs[0].isTiled
      && dirs[0].planarConfig == Some(PlanarConfigContig)
      && ReadPyramid(dirs) == Ok(r.value.levels)
      && |r.value.levels| > 0
      && LevelOf(dirs[0]) == Ok(r.value.levels[0])
  {
    if |dirs| == 0 then Err(CannotOpen)
    else
      var d := dirs[0];
      var dtype :- GetDType(d);
      var color :- GetCType(d);
      var compression :- Get(d.compression, CompressionTag);
      if d.description.Some? && Denied(d.description.value) then Err(UnsupportedFormat(d.description.value))
      else if !d.isTiled then Err(NotTiled)
      else
        var planar :- Get(d.planarConfig, PlanarConfigTag);
        if planar != PlanarConfigContig then Err(NotContiguous)
        else
          var levels :- ReadPyramid(dirs);
          Ok(TiffImage(dtype, color, compression, levels))
  }

  /** An absent SampleFormat tag reads exactly as SampleFormat = 1 (unsigned integer). */
  lemma AbsentSampleFormatIsUInt(d: Dir)
    requires d.sampleFormat.None?
    ensures GetDType(d) == GetDType(d.(sampleFormat := Some(SampleFormatUInt)))
  {
  }

  /** The sample-type table is a bijection onto its four (SampleFormat, BitsPerSample) rows:
      signed, undefined and any other format, and any floating-point depth but 32, fail. */
  lemma DTypeTableExhaustive(d: Dir)
    requires d.bitsPerSample.Some?
    ensures GetDType(d).Ok? <==>
      (SampleFormatOf(d), d.bitsPerSample.value) in {(SampleFormatUInt, 8), (SampleFormatUInt, 16), (SampleFormatUInt, 32), (SampleFormatIEEEFP, 32)}
    ensures forall s, t :: Encoding(s) == Encoding(t) ==> s == t
  {
  }

  /** With YCbCr the sample count is never read: the result is ARGB whatever SamplesPerPixel holds. */
  lemma YCbCrIgnoresSamples(d: Dir, samples: Option<U16>)
    requires d.photometric == Some(PhotometricYCbCr)
    ensures GetCType(d) == GetCType(d.(samplesPerPixel := samples)) == Ok(ARGB)
  {
  }

  /** Filtering distributes over concatenation: together with its value on one directory this
      makes `TiledOnly` exactly the order-preserving selection of the tiled directories. */
  lemma {:induction false} TiledOnlyAppend(a: seq<Dir>, b: seq<Dir>)
    ensures TiledOnly(a + b) == TiledOnly(a) + TiledOnly(b)
    decreases |a|
  {
    if |a| == 0 {
      assert a + b == b;
    } else {
      assert (a + b)[0] == a[0];
      assert (a + b)[1..] == a[1..] + b;
      TiledOnlyAppend(a[1..], b);
    }
  }

  /** Directory i, when tiled, becomes level number "tiled directories before i". */
  lemma TiledOnlyPosition(ds: seq<Dir>, i: nat)
    requires i < |ds| && ds[i].isTiled
    ensures var k := |TiledOnly(ds[..i])|; k < |TiledOnly(ds)| && TiledOnly(ds)[k] == ds[i]
  {
    assert ds == ds[..i] + ([ds[i]] + ds[i + 1..]);
    TiledOnlyAppend(ds[..i], [ds[i]] + ds[i + 1..]);
    assert TiledOnly([ds[i]] + ds[i + 1..]) == [ds[i]] + TiledOnly(ds[i + 1..]);
  }

  /** For fewer than 2^16 directories nothing is truncated: every directory is walked. */
  lemma ReadPyramidWalksAll(dirs: seq<Dir>)
    requires 0 < |dirs| < 0x1_0000
    ensures ReadPyramid(dirs) == Pyramid(dirs)
  {
    assert dirs[..DirectoryCount(dirs)] == dirs;
  }

  /** The 16-bit directory count wraps: a file of exactly 2^16 directories reads as one
      with no levels. */
  lemma ReadPyramidCountWraps(dirs: seq<Dir>)
    requires |dirs| == 0x1_0000
    ensures ReadPyramid(dirs) == Err(NoLevels)
  {
  }

  /** The deny-list is case-sensitive: "XML" is refused, "Xml" is not. */
  lemma DenyListExamples()
    ensures Denied("scan XML")
    ensures !Denied("Xml")
  {
    assert OccursAt("scan XML", "XML", 5);
    var s := "Xml";
    assert s[..3] != "XML" by { assert s[1] == 'm'; }
    assert s[..3] != "xml" by { assert s[0] == 'X'; }
    assert !OccursAt(s, "XML", 0);
    assert !OccursAt(s, "xml", 0);
  }
}
