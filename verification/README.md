# torchslide core in Dafny

This project models two parts of torchslide, a reader for pyramidal whole-slide images:

- **The codec registry** (`Factory<Base>`). It is a process-wide map from a file extension to a
  `std::map<int, ctor>` of decoder constructors keyed by priority. `make(filename)` takes the
  path's extension and looks it up. It then tries the constructors in ascending priority and
  returns the first image built. If every constructor throws, it rethrows the exception of the
  last one.
- **The TIFF codec** (`codec_tiff.cpp`). It maps TIFF 6.0 tag values to the library's own types:
  - SampleFormat (section 19) and BitsPerSample (section 8) map to a sample type.
  - PhotometricInterpretation (section 8; YCbCr in section 21) and SamplesPerPixel map to a
    colour layout.
  - The tiled directories (section 15) become the pyramid levels.
  - Opening a file runs a fixed sequence of checks.

Modules:

- `Results`: the `Option` and `Result` types. A C++ `throw` becomes an `Err`.
- `Paths`: `std::filesystem::path::extension()` for POSIX paths.
- `Strings`: substring search, as in `std::string::find`.
- `Factory`: the registry, registration and `make`.
- `Tiff`: tag numbers, tag values, the directory record `Dir` and the result types.
- `TiffCodec`: `get_dtype`, `get_ctype`, `read_pyramid` and the `Tiff` constructor.
- `TiffRegistry`: the TIFF codec plugged into the registry, plus end-to-end scenarios.

How the source is represented:

- A constructor is a function value `Path -> Result<I, E>`.
- A `std::map<int, ctor>` is a sequence of `(priority, constructor)` entries kept in strictly
  ascending priority order (`PrioMap`).
- `make` returns a `Run`: the outcome together with the priorities of the constructors it
  invoked, in call order. This makes "which constructors ran" part of the contract.
- Static self-registration becomes `Register` updates applied in order to the empty registry
  (`Build`).
- A TIFF file is its sequence of image file directories. Each `Dir` holds the optional tag
  values the codec reads and the result of `TIFFIsTiled`. Directory 0 is the directory the file
  is positioned on after opening.
- `File::get` on an absent tag fails with `MissingTag(tag)`.
- `try_get` and `get_defaulted` give `None` on an absent tag.
- The null `unique_ptr` that `make` returns for an empty candidate list is the `NoImage`
  outcome.
- Library calls with no body here are helpers without rows: `Factory.Find` is a
  `std::map` lookup, `Paths.FileNameStart`, `Paths.FileName` and `Paths.LastDot` make up
  `path::filename()` and the last-dot search of `path::extension()`, and `Tiff.Get` is
  `File::get`.
- The 16-bit truncation of the directory count is modelled explicitly: the count is taken
  modulo 2^16.

Facts about the code that the model keeps:

- The description deny-list match is case-sensitive, so "Xml" is accepted
  (src/codec_tiff.cpp:117-119).
- "Tiff have no levels" is raised only when the 16-bit directory count is 0
  (src/codec_tiff.cpp:84-86). A file whose directories are all untiled never reaches it,
  because the constructor rejects an untiled directory 0 first (src/codec_tiff.cpp:122-123).
- torchslide/image.h:23 declares `levels` as a `std::map`, while `read_pyramid` builds a
  `std::vector` (src/codec_tiff.cpp:88, 102, 127). Levels here are a sequence indexed by
  level number.

## Model

| member | source | states |
|---|---|---|
| Paths.Extension | torchslide/core/factory.h:17-18 | The key is either empty or a suffix of the path that starts with '.' and holds no other '.' and no '/'. It is non-empty exactly when the final component is not ".." and has a '.' after its first character. |
| Paths.ExtensionOfJoin | torchslide/core/factory.h:17-18 | Round trip: `base + "." + e` has extension exactly `"." + e`, case preserved, when `base` names a file and `e` holds no '.' or '/'. |
| Paths.NoExtensionExamples | torchslide/core/factory.h:17-18 | A dot in a directory name, or a dot only at the start of the file name (".profile"), gives no extension. |
| Strings.Contains | src/codec_tiff.cpp:117-119 | `find(needle) != npos` holds exactly when the needle occurs at some position of the string. |
| Factory.Insert | torchslide/core/factory.h:47 | `m[p] = c` on an ordered map. Afterwards `p` maps to `c` and every other priority maps to what it did before. The entries stay in ascending order. |
| Factory.Register | torchslide/core/factory.h:46-47 | For each extension of the class, `data[ext][priority]` becomes the class's constructor. An existing entry at that priority is overwritten. Every other (extension, priority) entry is unchanged. The key set grows by exactly the class's extensions. No extension is left with an empty priority map. |
| Factory.Build | torchslide/core/factory.h:42-51 | After every class has registered, the registry's keys are exactly the registered extensions, and each key has at least one constructor. |
| Factory.BuildLastWins | torchslide/core/factory.h:47 | When two classes register the same (extension, priority), the later registration wins. |
| Factory.BuildUnregistered | torchslide/core/factory.h:58-63 | An (extension, priority) that no class registers has no constructor. |
| Factory.PrioMapExtensional | torchslide/core/factory.h:61 | A priority map is determined by what it maps each priority to. |
| Factory.TryFrom | torchslide/core/factory.h:22-31 | Over the candidates in iteration order, the loop invokes a prefix of them. It builds an image exactly when some candidate accepts the path, and that image is the first acceptor's result, unchanged. Every earlier candidate threw, and no later one ran. Otherwise every candidate ran and the rethrown error is the last candidate's. It returns the null handle only when the list is empty and nothing was caught. |
| Factory.Make | torchslide/core/factory.h:16-32 | Fails with "Unsupported extension", invoking nothing, exactly when the path's extension is not a key. The priorities it invokes strictly ascend and are all registered for that extension. |
| Factory.MakeUnknownExtension | torchslide/core/factory.h:18-20 | An unknown extension yields "Unsupported extension" with no constructor invoked. |
| Factory.MakeFirstSuccess | torchslide/core/factory.h:23-25 | When candidate k is the first to accept, its image is returned. Exactly candidates 0..k ran, once each, in ascending priority. |
| Factory.MakeAllFail | torchslide/core/factory.h:22-30 | When every candidate throws, all of them ran in order. The rethrown error is that of the candidate with the largest priority. |
| Factory.MakeNeverNull | torchslide/core/factory.h:29-31 | On a registry built by registration, `make` never returns the null handle. |
| TiffCodec.GetDType | src/codec_tiff.cpp:24-52 | A missing BitsPerSample fails first. The result is the sample type whose (SampleFormat, BitsPerSample) encoding matches the directory, in both directions. A format other than UINT or IEEEFP fails with "Unsupported dtype". A supported format with an unlisted depth fails with "Unsupported bitdepth" carrying that depth. |
| TiffCodec.AbsentSampleFormatIsUInt | src/codec_tiff.cpp:26 | An absent SampleFormat tag is read as 1 (unsigned integer): a directory without it decodes exactly as one with SampleFormat = 1. |
| TiffCodec.DTypeTableExhaustive | src/codec_tiff.cpp:28-51 | The decode succeeds exactly on UINT 8/16/32 and IEEEFP 32. Distinct sample types have distinct encodings. |
| TiffCodec.GetCType | src/codec_tiff.cpp:54-80 | Each colour holds exactly when: Monochrome for MinIsBlack with 1 sample; Indexed for MinIsBlack with any other count; RGB for RGB with 3; ARGB for RGB with 4 or for any YCbCr. Non-YCbCr values read SamplesPerPixel and fail when it is absent. RGB with another count fails with that count. Other photometric values fail. "Invalid color" never occurs. |
| TiffCodec.YCbCrIgnoresSamples | src/codec_tiff.cpp:56-76 | With YCbCr the result is ARGB whatever SamplesPerPixel holds, present or absent. |
| TiffCodec.LevelOf | src/codec_tiff.cpp:95-98 | A level is read exactly when all four geometry tags are present. Its shape is (ImageLength, ImageWidth) and its tile shape is (TileLength, TileWidth). ImageLength is read before ImageWidth. |
| TiffCodec.TiledOnly | src/codec_tiff.cpp:92-93 | Keeps only tiled directories, is never longer than its input, and keeps a tiled first directory first. |
| TiffCodec.TiledOnlyAppend | src/codec_tiff.cpp:89-100 | Skipping untiled directories distributes over concatenation, so the kept directories stay in directory order. |
| TiffCodec.TiledOnlyPosition | src/codec_tiff.cpp:89-99 | A tiled directory i becomes level number "count of tiled directories before i". |
| TiffCodec.Pyramid | src/codec_tiff.cpp:89-100 | The walk succeeds exactly when every tiled directory has its geometry tags. It then yields, in order, one level per tiled directory. On failure the error is the one raised by the first tiled directory lacking a tag. |
| TiffCodec.DirectoryCount | src/codec_tiff.cpp:84 | The `uint16_t` directory count never exceeds the directory list and equals it below 2^16. |
| TiffCodec.ReadPyramid | src/codec_tiff.cpp:82-103 | Fails with "Tiff have no levels" exactly when the 16-bit count is 0. It succeeds exactly when every walked tiled directory has its geometry. The levels are then the walked tiled directories in order, never more than the directory count, and a tiled directory 0 gives level 0. |
| TiffCodec.ReadPyramidWalksAll | src/codec_tiff.cpp:84-89 | Below 2^16 directories, every directory is walked. |
| TiffCodec.ReadPyramidCountWraps | src/codec_tiff.cpp:84-86 | A file of exactly 2^16 directories reads as having no levels. |
| TiffCodec.DenyListExamples | src/codec_tiff.cpp:114-121 | The deny-list is case-sensitive: "scan XML" is refused and "Xml" is accepted. |
| TiffCodec.Open | src/codec_tiff.cpp:107-129 | The checks run in this order, and the first failure is the error: sample type; colour layout; the Compression read; description deny-list (an absent description passes); directory 0 tiled; PlanarConfig present and contiguous; pyramid read. On success every check passed, the image carries the decoded sample type, colour and compression, and its levels are non-empty with level 0 from directory 0. |
| TiffRegistry.TiffOnlyRegistry | torchslide/core/factory.h:16-30 | With only the TIFF codec registered, a path with one of its extensions invokes it exactly once. `make` then returns the opened image or rethrows the codec's error. |
| TiffRegistry.ThreeLevelScenario | src/codec_tiff.cpp:107-127 | A valid tiled, contiguous, three-level 8-bit RGB file opens as UInt8 RGB with its three levels in directory order. |
| TiffRegistry.XmlDescriptionScenario | src/codec_tiff.cpp:114-121 | The same kind of file with "XML" in its description fails with "Unsupported format". |

## Left out

- Windows path syntax (root names, '\\' separators) is not modelled. `Extension` follows POSIX `std::filesystem::path`.
- Thread safety and static-initialisation order of self-registration (`inline static`, `static_assert`) are not modelled. Registration is an explicit sequence of updates.
- `TIFFSetDirectory`, `TIFFIsTiled`, `TIFFNumberOfDirectories` and `File::get` have no bodies here. They are reads of the `Dir` records. A failing `TIFFSetDirectory` is not modelled, and neither is the final rewind to directory 0.
- Default values that libtiff may supply for absent tags (for example Compression or PlanarConfig) are not modelled: an absent tag read by `get` fails.
- BitsPerSample is read as one value, not as the per-sample array TIFF allows.
- Opening the file (`File{path, "rm"}`) is not shown. A file with no directories is modelled as failing to open (`CannotOpen`). The file contents are a parameter (`files`) of `TiffRegistry.TiffMake`.
- The Compression value is checked for presence and stored, never interpreted.
- `al::to_samples`, which derives the sample count from the colour layout, has no body here. `samples` is not modelled.
- The commented-out resolution and spacing code in `codec_tiff.cpp` is dead code and is not modelled.
- `torchslide/image.h`: `get_scale`, `scales` and `get_level` have no bodies, so they are not modelled. `read_any` is a dispatch into the Python binding. Only its `DType` and `LevelInfo` shapes are reused.
- `torchslide/dispatch.h` (Python buffer construction) and `setup.py` (build tooling) contain no modelled logic.
- Exception message strings are represented by error constructors, not by text.
- TiffCodec.TiledOnly: its own contract states only that it keeps tiled directories, is no longer than its input, and keeps a tiled first directory first. `TiledOnlyAppend` and `TiledOnlyPosition` state the order-preserving selection.
- TiffCodec.Open: the model runs the sample-type, colour-layout and Compression reads in the order of the mem-initializer list (src/codec_tiff.cpp:110-112). C++ initialises members in declaration order, and the class declaration (codec_tiff.h) is not part of this model, so the model assumes `dtype_`, `ctype_` and `codec_` are declared in that order.
