# Gaussian-splat viewer core, modelled in Dafny

This project models the small, self-contained logic of a Gaussian-splat
viewer written in Rust:

- **Splat decoder** (`splat_decoder.dfy`, with `bytes.dfy`): the binary
  `.splat` file format. A file is a sequence of 32-byte records with no
  header. Each record holds:
  - a position and a scale, three `f32` each;
  - an RGBA colour, four `u8`;
  - a rotation, four `u8`, each decoded as `(raw - 128) / 128`.

  `SplatEntry::from_raw_splat_data` reads one record through a `bytes::Buf`
  cursor. `SplatFile::load_from_file` checks the file length, cuts the file
  into 32-byte chunks, decodes them in parallel and collects the results.
- **Coordinate parser** (`coordinates.dfy`): the command-line parser that
  turns `"(x,y,z)"` into three `f32` values or into a `Point3` or `Vector3`.
- **Path placeholders** (`placeholders.dfy`): `replace_placeholders_in_path`.
  It applies `str::replace` once per (key, value) pair of the placeholder
  map. The only map the program builds has one pair: `{BASE_DATA_DIRECTORY}`
  and the base directory.
- **Stub renderer** (`renderer.dfy`): `SplatRenderer`. Its `draw` paints
  every complete 4-byte pixel of the frame buffer with the colour
  `[133, 255, 211, 255]` and leaves any trailing partial pixel alone.

`wrappers.dfy` holds `Option` and `Result`. `vectors.dfy` holds the nalgebra
`Vector3`, `Vector4` and `Point3` shapes.

Modelling choices:

- **`f32` values.** An `f32` is modelled by its 32-bit pattern (`Bytes.F32`).
  Its IEEE 754 binary32 meaning is left abstract.
- **Byte order.** `bytes::Buf::get_f32` is the big-endian read, so the first
  byte of a field is the most significant; the model follows it.
- **Rotation.** Each rotation component is kept as the `u8` numerator
  `raw - 128`. `SplatDecoder.RotationValue` gives its real value,
  numerator / 128, which the `f32` division computes exactly.
- **Overflow in `raw - 128`.** This is a `u8` subtraction, so it overflows
  for raw bytes below 128. The model takes a `Build` parameter:
  - `Debug`: the overflow panics. The model records the panic as the outcome
    `RotationSubtractOverflow(component)`.
  - `Release`: the subtraction wraps modulo 256.
- **Parallel load.** `par_bridge` does not keep file order. So the set of
  results a load may produce is the ghost predicate
  `SplatDecoder.IsLoadOutcome`:
  - on success, any permutation of the decoded records;
  - on failure, the error of any failing chunk.

  `SplatDecoder.LoadFromFile` is the file-order run. It is proved to be one
  of those outcomes.
- **`str::parse::<f32>`.** It is a parameter, `parse: string -> Option<F32>`.
  `None` stands for a parse error.
- **`HashMap` order.** The placeholder map is a sequence of pairs. Its order
  stands for the map's iteration order, which `HashMap` leaves unspecified.

## Model

| member | source | states |
|---|---|---|
| Bytes.WordBytes | src/splat_decoder/mod.rs:33-35 | the four bytes of a word, most significant first, assemble back to that word |
| Bytes.BigEndianWordBytes | src/splat_decoder/mod.rs:33-35 | a big-endian word is `b0*2^24 + b1*2^16 + b2*2^8 + b3`, and splitting it gives the four bytes back |
| Bytes.BigEndianWordInjective | src/splat_decoder/mod.rs:41-43 | distinct byte quadruples read as distinct `f32` bit patterns |
| Bytes.Buf.constructor | src/splat_decoder/mod.rs:114 | `Bytes::copy_from_slice`: the cursor starts at the whole chunk |
| Bytes.Buf.GetF32 | src/splat_decoder/mod.rs:33-35 | `get_f32` returns the big-endian word of the next four bytes and advances the cursor past them |
| Bytes.Buf.GetU8 | src/splat_decoder/mod.rs:49-52 | `get_u8` returns the next byte and advances the cursor by one |
| SplatDecoder.SubU8 | src/splat_decoder/mod.rs:63-66 | `u8` subtraction: defined exactly in release builds or without underflow; congruent to `a - b` mod 256; equal to `a - b` when `a >= b` |
| SplatDecoder.RotationValue | src/splat_decoder/mod.rs:63-66 | a rotation value is its numerator over 128 and lies in [0, 2) |
| SplatDecoder.GetVector3F32 | src/splat_decoder/mod.rs:32-46 | three consecutive `get_f32` calls read the words at offsets 0, 4 and 8 and consume 12 bytes |
| SplatDecoder.GetVector4U8 | src/splat_decoder/mod.rs:48-61 | four consecutive `get_u8` calls read bytes 0 to 3 in order and consume 4 bytes |
| SplatDecoder.FromRawSplatData | src/splat_decoder/mod.rs:18-83 | the cursor-based decode returns exactly the offset-based record decode, including its errors |
| SplatDecoder.RotationByte | src/splat_decoder/mod.rs:63-66 | the raw byte whose wrapped `raw - 128` is a given numerator; a numerator below 128 comes from a byte of at least 128 |
| SplatDecoder.EncodeRecord | src/splat_decoder/mod.rs:19-23 | an encoded record is 32 bytes long |
| SplatDecoder.DecodeRecordOutcome | src/splat_decoder/mod.rs:25-67 | a record that is not 32 bytes long is rejected with its length; a record decodes exactly when it is 32 bytes long and, in a debug build, every rotation byte is at least 128; otherwise the first low byte names the panicking component |
| SplatDecoder.DecodeRecordFields | src/splat_decoder/mod.rs:32-74 | bytes 0-11 are the position and 12-23 the scale, each a big-endian word; 24-27 are the colour verbatim in R, G, B, A order; each rotation numerator is `raw - 128` mod 256, exactly `raw - 128` (below 128) for a byte of at least 128, and `raw + 128` only in a release build otherwise |
| SplatDecoder.RotationComponentValue | src/splat_decoder/mod.rs:63-66 | the value of a rotation component is `(raw - 128) / 128`, in [0, 1), for a raw byte of at least 128; for a lower byte, only in a release build, it is the wrapped `(raw + 128) / 128`, in [1, 2) |
| SplatDecoder.DecodeRecordRotationValues | src/splat_decoder/mod.rs:57-74 | the four decoded rotation components come from bytes 28, 29, 30 and 31 in that order, and each has value `(raw - 128) / 128` when its byte is at least 128 |
| SplatDecoder.DecodeEncodeRecord | src/splat_decoder/mod.rs:18-83 | decoding the encoding of an entry gives the entry back (debug builds need numerators below 128) |
| SplatDecoder.EncodeDecodeRecord | src/splat_decoder/mod.rs:18-83 | a record that decodes is the encoding of its decode, so decoding loses no information |
| SplatDecoder.Chunks | src/splat_decoder/mod.rs:111-112 | `chunks(32)` partitions the bytes in order into pieces of 1 to 32 bytes, all but the last of size 32; a multiple of 32 gives `len/32` pieces of 32 |
| SplatDecoder.ChunkIsRecord | src/splat_decoder/mod.rs:111-112 | with a length that is a multiple of 32, chunk `i` is bytes `32i` up to `32i+32` |
| SplatDecoder.Collect | src/splat_decoder/mod.rs:115 | the file-order `collect::<Result<Vec<_>>>`: `Ok` exactly when every item is `Ok`, with the values in order; otherwise the first error. `IsLoadOutcome` adds the freedom of order and of which error wins that the parallel collect has |
| SplatDecoder.LoadFromFile | src/splat_decoder/mod.rs:105-119 | the file-order load is one of the outcomes the parallel load may produce |
| SplatDecoder.LoadOutcomeShape | src/splat_decoder/mod.rs:105-119 | a length that is not a multiple of 32 is exactly the length error; a success holds `len/32` entries, each the decode of some record, and every record's decode is among them; a failure after the length check is a debug-build rotation panic of some record, so the record-size error is unreachable |
| SplatDecoder.AnyOrderIsLoadOutcome | src/splat_decoder/mod.rs:111-115 | when the load succeeds, a list of entries is a possible outcome exactly when it is a permutation of the file-order decodes |
| SplatDecoder.ReleaseLoadSucceeds | src/splat_decoder/mod.rs:105-119 | in a release build every file whose length is a multiple of 32 loads |
| SplatDecoder.DebugLoadPanicsOnLowRotationByte | src/splat_decoder/mod.rs:63-115 | in a debug build one rotation byte below 128 in any record makes the whole load fail with the overflow panic |
| SplatDecoder.EncodeFile | src/splat_decoder/mod.rs:105-109 | a file of `n` encoded entries is `32n` bytes long |
| SplatDecoder.ChunksOfEncodedFile | src/splat_decoder/mod.rs:111-112 | the chunks of an encoded file are the encoded entries, in order |
| SplatDecoder.CollectAllOk | src/splat_decoder/mod.rs:115 | results that are all `Ok` collect to their values |
| SplatDecoder.LoadEncodedFile | src/splat_decoder/mod.rs:93-121 | in a release build, loading the encoding of a list of entries in file order gives that list back |
| CoordinateParsing.RemoveParensSpec | src/main.rs:42 | no parenthesis is left after removal, and a string without parentheses is left as it is |
| CoordinateParsing.RemoveParensIdempotent | src/main.rs:42 | removing parentheses twice is removing them once |
| CoordinateParsing.RemoveParensConcat | src/main.rs:42 | removal keeps every other character in order |
| CoordinateParsing.CountConcat | src/main.rs:43 | the comma count of a concatenation is the sum of the counts |
| CoordinateParsing.CountAbsent | src/main.rs:43 | a string without a character counts none of it |
| CoordinateParsing.IndexOf | src/main.rs:43 | the index found is the first occurrence; none is found only when the character is absent |
| CoordinateParsing.SplitN | src/main.rs:43 | `splitn(n, sep)` yields 1 to `n` pieces; only the last may hold `sep`, and only when all `n` pieces were produced |
| CoordinateParsing.JoinCons | src/main.rs:43 | joining a piece before the rest puts one separator between them |
| CoordinateParsing.SplitNJoin | src/main.rs:43 | the pieces joined with the separator give the string back |
| CoordinateParsing.CountAfterFirst | src/main.rs:43 | after the first separator one separator fewer remains |
| CoordinateParsing.SplitNCount | src/main.rs:43-45 | `splitn(n, sep)` yields exactly `n` pieces when the string holds at least `n - 1` separators, and only then |
| CoordinateParsing.ParseIgnoresParens | src/main.rs:42 | parentheses anywhere make no difference, so "(x,y,z)" parses as "x,y,z" |
| CoordinateParsing.ParseWrongFormat | src/main.rs:41-50 | the format error happens exactly when the string without parentheses holds fewer than two commas, and it carries that string |
| CoordinateParsing.IndexOfAfter | src/main.rs:43 | the first comma of `x + "," + y`, with none in `x`, is the one after `x` |
| CoordinateParsing.SplitThree | src/main.rs:43 | `splitn(3, ',')` of `a,b,c`, with no comma in `a` or `b`, gives `a`, `b` and `c`; `c` keeps any further commas |
| CoordinateParsing.ParsePieces | src/main.rs:43-66 | the untrimmed pieces go to `parse`; success yields the three values in x, y, z order; the first failing piece (x, then y, then z) names the error and quotes the piece |
| CoordinateParsing.ParseStrAsPoint3 | src/main.rs:70-74 | fails exactly when the triple parser fails, with its error; otherwise the triple as a point |
| CoordinateParsing.ParseStrAsVector3 | src/main.rs:76-80 | fails exactly when the triple parser fails, with its error; otherwise the triple as a vector |
| PathPlaceholders.ReplaceAbsent | src/configuration/utilities.rs:33 | a non-empty key that does not occur leaves the string unchanged and has no match |
| PathPlaceholders.ReplaceFirstOccurrence | src/configuration/utilities.rs:33 | at the leftmost match the text before it is kept, the match becomes the value, and scanning resumes after the match (no overlap) |
| PathPlaceholders.ReplaceBySelf | src/configuration/utilities.rs:33 | replacing a non-empty key by itself changes nothing |
| PathPlaceholders.ReplaceLength | src/configuration/utilities.rs:33 | the result is `|in| + k * (|value| - |key|)` long, where `k` is the number of non-overlapping matches |
| PathPlaceholders.ApplyPlaceholdersFirst | src/configuration/utilities.rs:32-34 | the pairs are applied as a left fold: the first pair goes first, to the original string |
| PathPlaceholders.ApplyAbsentKeys | src/configuration/utilities.rs:32-34 | pairs whose non-empty keys do not occur leave the path unchanged |
| PathPlaceholders.ReplacePlaceholdersInPath | src/configuration/utilities.rs:21-37 | the loop applies every pair in order, each to the previous result; an empty map returns the input; one pair is one replace-all |
| PathPlaceholders.BaseDataDirectoryResolved | src/configuration/structure/base_paths.rs:51-60 | with the one-entry base-path map, every `{BASE_DATA_DIRECTORY}` is replaced by the base directory; a leading placeholder becomes the directory followed by the rest of the path |
| Renderer.FillPixelsAt | src/renderer.rs:23-25 | after filling, each byte inside a complete pixel is the colour's byte at its offset, and each trailing byte is the old one |
| Renderer.FillPixelsPixel | src/renderer.rs:23-25 | complete pixel `k` holds `[133, 255, 211, 255]` |
| Renderer.FillPixelsPixels | src/renderer.rs:23-25 | every complete pixel holds the colour, and the trailing `len % 4` bytes are untouched |
| Renderer.FillPixelsIgnoresContents | src/renderer.rs:21-26 | the result depends only on the length and the trailing bytes, not on the earlier pixels |
| Renderer.FillPixelsIdempotent | src/renderer.rs:21-26 | drawing twice gives what drawing once gives |
| Renderer.FillPixels | src/renderer.rs:23 | the frame keeps its length |
| Renderer.SplatRenderer.constructor | src/renderer.rs:12-17 | `new` stores both sizes unchanged |
| Renderer.SplatRenderer.Draw | src/renderer.rs:20-26 | the frame in place becomes its filled version (so complete pixels take the colour, trailing bytes and length stay) and the renderer is unchanged |

## Left out

- Reading the file (`std::fs::read`, src/splat_decoder/mod.rs:97-103): the load takes the file's bytes as its input and does not model I/O errors.
- Rayon parallelism (src/splat_decoder/mod.rs:113): decoding is sequential in `LoadFromFile`. The freedom of order and of which error wins is stated by `IsLoadOutcome`, not by a model of threads.
- Error messages (`miette!` text and `wrap_err` context): errors are datatype constructors that carry the values the messages quote.
- The debug-build overflow panic is an outcome of the decode, not a process abort.
- IEEE 754 semantics of `f32`: decoded words, the division by 128 and `str::parse::<f32>` (a parameter) are not interpreted.
- `String` is modelled as a sequence of characters: UTF-8 encoding and `PathBuf` conversion are not modelled, and `PlaceholdersMap` takes the result of `to_string_lossy` as its input.
- `render_width` and `render_height` are stored but not read by `draw`, as in the source; `Draw`'s frame is any byte array, not the `pixels` surface.
- `get_default_configuration_file_path` (src/configuration/utilities.rs:8-19): current directory, file-system existence check and panic.
- Configuration loading, the window and event loop (`src/drawing.rs`), the command-line definition and `main`'s orchestration: file-system I/O, TOML parsing and UI plumbing.
- `Splats`, `Splat`, `render_in_place` and `WindowDrawingManager`, which `main` uses, are not part of this model: they are not defined in this repository. `main.rs` imports `Splats` and `Splat` from `splat_decoder`, but `splat_decoder/mod.rs` does not declare them; `SplatRenderer` has no `render_in_place`, and `drawing.rs` declares `WindowManager`, not `WindowDrawingManager`.
- Projection, sorting and compositing of splats do not exist in the code: `draw` is a constant fill.
