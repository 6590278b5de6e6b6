/** The TIFF codec registered with the factory, and end-to-end scenarios. The file system
    is a parameter: `files(p)` is the directory list of the file at `p`. */
module TiffRegistry {
  import opened Results
  import opened Paths
  import opened Factory
  import opened Tiff
  import opened TiffCodec

  /** `Tiff::make_this`: open the file at the path. */
  function TiffMake(files: Path -> seq<Dir>): Ctor<TiffImage, TiffError> {
    p => Open(files(p))
  }

  /** With the TIFF codec as the only registered class, a path with one of its extensions
      invokes it exactly once and `make` passes its result or its exception through. */
  lemma TiffOnlyRegistry(exts: seq<string>, prio: int, files: Path -> seq<Dir>, path: Path)
    requires Extension(path) in exts
    ensures var run := Make(Build([Codec(exts, prio, TiffMake(files))]), path);
      && run.tried == [prio]
      && (Open(files(path)).Ok? ==> run.outcome == Built(Open(files(path)).value))
      && (Open(files(path)).Err? ==> run.outcome == Thrown(Open(files(path)).error))
  {
    var c := TiffMake(files);
    var cs := [Codec(exts, prio, c)];
    assert cs[..0] == [];
    var reg := Build(cs);
    assert reg == Register(map[], exts, prio, c);
    var ext := Extension(path);
    forall q ensures Find(reg[ext], q) == Find([Entry(prio, c)], q) {
      assert Lookup(reg, ext, q) == if q == prio then Some(c) else Lookup(map[], ext, q);
    }
    PrioMapExtensional(reg[ext], [Entry(prio, c)]);
  }

  /** A tiled, contiguous, 8-bit RGB directory of the given extent with 256 x 256 tiles. */
  function RgbLevel(height: U32, width: U32, description: Option<string>): Dir {
    Dir(imageWidth := Some(width), imageLength := Some(height), bitsPerSample := Some(8),
        compression := Some(7), photometric := Some(PhotometricRGB), description := description,
        samplesPerPixel := Some(3), planarConfig := Some(PlanarConfigContig),
        tileWidth := Some(256), tileLength := Some(256), sampleFormat := None, isTiled := true)
  }

  /** A valid three-level 8-bit RGB pyramid opens with every level, in directory order. */
  lemma ThreeLevelScenario()
    ensures Open([RgbLevel(4096, 4096, None), RgbLevel(2048, 2048, None), RgbLevel(1024, 1024, None)])
      == Ok(TiffImage(UInt8, RGB, 7, [
           LevelInfo(Shape(4096, 4096), Shape(256, 256)),
           LevelInfo(Shape(2048, 2048), Shape(256, 256)),
           LevelInfo(Shape(1024, 1024), Shape(256, 256))]))
  {
    var dirs := [RgbLevel(4096, 4096, None), RgbLevel(2048, 2048, None), RgbLevel(1024, 1024, None)];
    var levels := [
      LevelInfo(Shape(4096, 4096), Shape(256, 256)),
      LevelInfo(Shape(2048, 2048), Shape(256, 256)),
      LevelInfo(Shape(1024, 1024), Shape(256, 256))];
    assert dirs[..3] == dirs;
    assert dirs[1..][1..] == [dirs[2]];
    assert [dirs[2]][1..] == [];
    assert forall i :: 0 <= i < 3 ==> LevelOf(dirs[i]) == Ok(levels[i]);
    assert Pyramid([dirs[2]]) == Ok([levels[2]]) by {
      assert Pyramid([dirs[2]][1..]) == Ok([]);
      assert [levels[2]] + [] == [levels[2]];
    }
    assert Pyramid(dirs[1..]) == Ok(levels[1..]) by {
      assert [levels[1]] + [levels[2]] == levels[1..];
    }
    assert Pyramid(dirs) == Ok(levels) by {
      assert [levels[0]] + levels[1..] == levels;
    }
    assert ReadPyramid(dirs) == Ok(levels);
    assert GetDType(dirs[0]) == Ok(UInt8);
    assert GetCType(dirs[0]) == Ok(RGB);
  }

  /** The same file with "XML" in its description is refused as an unsupported format. */
  lemma XmlDescriptionScenario()
    ensures Open([RgbLevel(4096, 4096, Some("scan XML")), RgbLevel(2048, 2048, None)])
      == Err(UnsupportedFormat("scan XML"))
  {
    DenyListExamples();
  }
}
