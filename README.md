# PRAE archive core in Dafny

PRAE (Pyongyang Racer Asset Extractor) packs a game asset folder into a
`.dat` archive and unpacks it again. Uncompressed, an archive is laid out as:

1. a little-endian `i32` count;
2. for each file, a metadata record: a one-byte path length, the UTF-8 path
   bytes, and a one-byte `FileType` code;
3. for each file in the same order, a payload record: a little-endian `i32`
   size followed by that many bytes.

`zip` walks a directory tree and classifies each plain file by its name. It
writes the textures first, then the other recognised files, and skips files
of unknown type. `list` reads back the metadata. `unzip` reads the metadata,
then writes each payload below a target folder.

This project models that core:

- `wire.dfy` (module `Wire`): bytes, the error and result types, the
  little-endian `i32` with its wrap-around, and UTF-8 validity after
  Table 3-7 of the Unicode Standard.
- `file_type.dfy` (module `FileTypes`): the `FileType` enum and its two
  `u8` conversions.
- `classifier.dfy` (module `Classifier`): the file-name classifier used by
  `get_file_list`.
- `walker.dfy` (module `Walker`):
  - `get_file_list` as a recursive method that appends to the two lists it
    is handed;
  - a pure specification of the depth-first walk over an abstract
    filesystem tree.
  An unreadable entry (the `?` at src/main.rs:244-248) and a name or path
  that `to_str().unwrap()` rejects as not UTF-8 (src/main.rs:250, 269, 271),
  where the source returns an error or panics, both make the walk fail:
  `Visit` gives None, and `zip` gives WalkFailed.
- `layout.dfy` (module `Layout`): the byte layout `write_raw_data` produces,
  as a function of the entries and payloads.
- `encoder.dfy` (module `Encoder`):
  - `write_raw_data` as a method that runs two loop methods, each twice,
    where the source has four loops: the metadata of the textures, then of
    the files, then the payloads of each;
  - the checked encoder the format evidently needs.
- `decoder.dfy` (module `Decoder`):
  - the metadata loop shared by `list` and `unzip`;
  - the `unzip` payload loop, both as written and corrected.
  Every out-of-range index and every failed `from_utf8().unwrap()` in
  these loops, where the source panics, becomes an explicit `Failure`. The
  one other panic, `parent().unwrap()` on the joined target path, is
  listed under "Left out".
- `roundtrip.dfy` (module `RoundTrip`): decoding inverts encoding, and
  packing a directory and then unpacking the archive recovers what the walk
  found. It holds `zip` both as written and with the corrected encoder.
- `truncation.dfy` (module `Truncation`): what the readers report for an
  archive that is cut short.

The filesystem is modelled as values:

- A directory tree is a `Node` value. Each file in it carries what opening
  and reading it gives, as an `Option` of its bytes; `None` means the open
  or the read fails.
- `write_raw_data` takes those reads as `Option`s, one per listed file.
- `unzip`'s filesystem failures are a map from entry index to `Fault`
  (the folder, the file, or the write fails).

The file name classifier works on the name's bytes. Its lower-casing folds
only ASCII letters.

An asset that cannot be opened or read aborts the whole `write_raw_data`
(`?`, src/main.rs:305-307).

## Model

| member | source | states |
|---|---|---|
| Wire.WrapI32 | src/main.rs:283 | the `as i32` cast: the result is in the i32 range, is congruent to the input modulo 2^32, and equals the input when it already fits |
| Wire.LeI32 | src/main.rs:283-284 | `i32::to_le_bytes`: always four bytes, least significant first; what they read back as is `ReadLeI32OfLeI32` |
| Wire.ReadLeI32 | src/main.rs:124 | `i32::from_le_bytes`: the value is always in the i32 range; that it inverts `LeI32` is `ReadLeI32OfLeI32` |
| Wire.ReadLeI32OfLeI32 | src/main.rs:284 | reading back the four little-endian bytes written for `n` gives `n` wrapped to i32, so exactly `n` when it fits |
| Wire.ValidUtf8Concat | src/main.rs:288 | joining two valid UTF-8 byte strings gives valid UTF-8, as building an archive path from UTF-8 names does |
| Wire.ValidUtf8 | src/main.rs:199 | the byte strings `String::from_utf8` (and `to_str` at :250, 269, 271) accept, one well-formed character at a time, defined after Table 3-7 of the Unicode Standard; `Utf8TableEdges` pins the table's narrowed ranges, and AsciiIsValidUtf8, ValidUtf8Concat and Utf8ExcludedBytes state further properties of it |
| Wire.Utf8TableEdges | src/main.rs:199 | the edges of Table 3-7: a surrogate (ED A0 80), an overlong three- or four-byte form (E0 9F BF, F0 8F BF BF) and a code point above U+10FFFF (F4 90 80 80) are rejected, while the neighbouring boundary characters are accepted; so are C2 80, but not a lead byte without its continuation |
| Wire.Utf8ExcludedBytes | src/main.rs:199 | an accepted string never holds 0xC0, 0xC1 or a byte from 0xF5 up |
| Wire.AsciiIsValidUtf8 | src/main.rs:288 | plain ASCII, such as the `/` the path join inserts, is accepted |
| FileTypes.FromByte | src/main.rs:25-40 | a byte decodes to Unknown exactly when it is not one of the codes 0-7 and 10; otherwise to the type with that discriminant |
| FileTypes.ToByte | src/main.rs:42-57 | the code is the discriminant modulo 256, so Unknown (-1) is 255; the code is a known one exactly when the type is not Unknown |
| FileTypes.FromToByte | src/main.rs:25-57 | decoding the code of any type gives that type back, Unknown included |
| FileTypes.ToFromByte | src/main.rs:25-57 | encoding the decoded type gives a known code back, and any other byte becomes 255 |
| FileTypes.ToByteInjective | src/main.rs:42-57 | distinct types have distinct codes |
| Classifier.ToLower | src/main.rs:258 | lower-casing keeps the length, leaves no byte in `A`..`Z`, turns each `A`..`Z` byte into its `a`..`z` partner and keeps every other byte |
| Classifier.LastSegment | src/main.rs:259-260 | the last `.`-separated piece is a dot-free suffix of the name, preceded by a dot whenever it is not the whole name |
| Classifier.Classify | src/main.rs:251-267 | the classifier never yields Mdl, and a special file name always gets its special type |
| Classifier.BoxMapIff | src/main.rs:257-262 | a name that is not special is a Box exactly when its lower-cased extension is box, and a Map exactly when it is map |
| Classifier.NoDotIsWholeName | src/main.rs:259-260 | a name without a dot is its own extension, lower-cased |
| Classifier.ExtensionAfterLastDot | src/main.rs:259-260 | the extension is the lower-cased text after the last dot |
| Classifier.ToLowerIdempotent | src/main.rs:258 | lower-casing twice is lower-casing once |
| Classifier.ExtensionIgnoresCase | src/main.rs:257-265 | apart from the special names, a name and its lower-cased form get the same type |
| Classifier.SpecialNameExtensions | src/main.rs:252-256 | path.dat, animate.dat and carproperty.dat have the extension dat, sky.obj has obj and heightmap.hmp has hmp |
| Classifier.SpecialNamesWin | src/main.rs:251-256 | path.dat, sky.obj, heightmap.hmp, animate.dat and carproperty.dat get Path, Obj, HeightMap, Animate and CarProperty, while the extension match would give Unknown |
| Classifier.SpecialNamesAreCaseSensitive | src/main.rs:251-256 | `PATH.DAT` is not special and is Unknown, because the special names are matched before lower-casing |
| Classifier.UpperCaseImageIsTexture | src/main.rs:258-263 | `FOO.PNG` is a Texture, because extensions are matched after lower-casing |
| Classifier.DotFreeNames | src/main.rs:259-262 | a name with no dot is matched as a whole: `box` is Box and `MAP` is Map |
| Classifier.UnlistedExtensionIsUnknown | src/main.rs:264 | an extension outside box, map, png and jpg (for example mdl) is Unknown |
| Classifier.TextureIffImageExtension | src/main.rs:251-263 | a name is a Texture exactly when its lower-cased extension is png or jpg |
| Classifier.UnknownIff | src/main.rs:251-264 | a name is Unknown exactly when it is not special and its extension is not box, map, png or jpg |
| Classifier.SpecialExtension | src/main.rs:252-256 | every special name's extension is dat, obj or hmp |
| Classifier.SpecialExtensionNotImage | src/main.rs:252-263 | no special name has an image extension |
| Walker.SelectMembers | src/main.rs:268-274 | a file is in a filtered list exactly when it was found and its type passes the filter |
| Walker.SelectDistributes | src/main.rs:268-274 | filtering a concatenation is concatenating the filtered parts |
| Walker.FiltersDistribute | src/main.rs:268-274 | the texture, other and skipped lists of two walks in sequence are the concatenations of each walk's lists |
| Walker.Partition | src/main.rs:268-274 | textures, other files and skipped files split the found files exactly: as multisets and by count |
| Walker.PlacedByType | src/main.rs:268-274 | a found Texture is on the texture list only; another known type is on the file list only; an Unknown file is on neither |
| Walker.DiscoverAppend | src/main.rs:244-278 | walking a listing in two parts finds the first part's files and then the second's, and fails when either part fails |
| Walker.DepthFirst | src/main.rs:275-277 | a subdirectory's files are found in place, after the entries listed before it and before the entries listed after it |
| Walker.DiscoverFindsFile | src/main.rs:244-271 | every plain file listed in a directory whose walk succeeds is found, with the path below that directory, the type its own name classifies as, and what reading it gave |
| Walker.SubdirFound | src/main.rs:275-277 | everything found inside a listed subdirectory is also found by the walk of the directory that holds it |
| Walker.DiscoverFindsNested | src/main.rs:244-278 | a plain file at any depth below a directory whose walk succeeds is found, with the names of the directories leading to it and then its own name as its path |
| Walker.WalkFindsFile | src/main.rs:243-280 | every plain file below the archived directory is found by a successful walk; a Texture lands on the texture list and any other known type on the file list |
| Walker.DiscoverCount | src/main.rs:244-278 | a successful walk reports as many files as there are plain files below the listing at any depth, so no file is reported twice |
| Walker.DiscoverOk | src/main.rs:244-271 | a walk succeeds exactly when every node below the listing is readable and every plain file has a UTF-8 name and, if its type is recognised, UTF-8 directory names; one bad node fails the whole walk |
| Walker.VisitOk | src/main.rs:245-277 | visiting one entry succeeds exactly when it is readable, a plain file has a UTF-8 name (and UTF-8 directory names if its type is recognised), and a subdirectory's whole walk succeeds |
| Walker.WalkSucceeds | src/main.rs:243-280 | the walk of the archived directory succeeds exactly when it is a directory and every node below it is as `DiscoverOk` requires |
| Walker.DiscoverOnlyFiles | src/main.rs:248-271 | everything a successful walk reports is a plain file of the tree: the path of a route that reaches a file, that file's content, and the type the classifier gives its own name |
| Walker.Visit | src/main.rs:245-277 | visiting one entry fails when its metadata cannot be read; every file it finds lies strictly below the current directory and has the type the classifier gives its own name (that a plain file is found is `DiscoverFindsFile`; when it succeeds is `VisitOk`) |
| Walker.Discover | src/main.rs:244-278 | walking the entries of a directory finds nothing in an empty listing; every file found lies strictly below that directory and is typed by its own name (that every listed file is found is `DiscoverFindsFile` and `DiscoverFindsNested`; that it finds only files of the tree, each once, and when it succeeds, are `DiscoverOnlyFiles`, `DiscoverCount` and `DiscoverOk`) |
| Walker.Walk | src/main.rs:244 | the walk succeeds only on a readable directory, and every file found lies below it, typed by its own name (exactly when it succeeds is `WalkSucceeds`) |
| Walker.GetFileList | src/main.rs:243-280 | the method succeeds exactly when the walk does; it then appends the walk's non-texture known files to `file` and its textures to `texture`, in discovery order |
| Walker.VisitEntry | src/main.rs:245-277 | one directory entry: the method succeeds exactly when visiting the entry does, and then appends the entry's non-texture known files to `file` and its textures to `texture` (a plain file by its own type, a subdirectory through its whole walk) |
| Layout.MetaRecord | src/main.rs:289-291 | a metadata record is two bytes longer than its path |
| Layout.PayloadRecord | src/main.rs:308-309 | a payload record is four bytes longer than its payload |
| Layout.Encode | src/main.rs:282-324 | the archive is the i32 count, then the metadata block, then the payload block, and its length is their sum |
| Layout.MetaBlockAppend | src/main.rs:285-300 | the metadata block of two lists is the two blocks side by side |
| Layout.PayloadBlockAppend | src/main.rs:301-322 | the payload block of two lists is the two blocks side by side |
| Layout.TexturesThenFiles | src/main.rs:283-322 | writing textures and then files in four loops lays out the same bytes as encoding the concatenated lists |
| Encoder.ArchivePath | src/main.rs:287-288 | reference definition of the archive path (`strip_prefix`, then `/` between names); a single name is its own path, `ArchivePathAppend` fixes the join at every depth, and ArchivePathEnds and ArchivePathUtf8 give its ends and its UTF-8 validity |
| Encoder.ArchivePathAppend | src/main.rs:287-288 | the archive path of two non-empty runs of names is the path of the first, one `/`, and the path of the second, so every directory name keeps its place |
| Encoder.ArchivePathEnds | src/main.rs:287-288 | the archive path starts with the first name below the root, has a `/` after it whenever there is a further name, and ends with the file's own name |
| Encoder.ArchivePathUtf8 | src/main.rs:287-288 | a path of UTF-8 names gives a UTF-8 archive path |
| Encoder.WriteMetadata | src/main.rs:285-292 | the loop appends exactly the metadata block of its list |
| Encoder.WriteRecord | src/main.rs:289-291 | one pass of the metadata loop body: appends the path length as a byte, the path bytes and the type code, which is exactly the entry's metadata record |
| Encoder.WritePayloads | src/main.rs:301-311 | the loop succeeds exactly when every asset could be read; it then appends the payload block of their contents; otherwise it fails with ReadFailed |
| Encoder.WriteRawData | src/main.rs:282-324 | `write_raw_data` succeeds exactly when every asset can be read, and then writes the layout of the textures followed by the files, with the payloads in the same order |
| Encoder.EncodeChecked | src/main.rs:283-319 | the corrected encoder refuses a path longer than 255 bytes with PathTooLong, fails exactly on an oversized path, count or payload, and otherwise writes the layout |
| Decoder.EntryCount | src/main.rs:192 | the header reads exactly when there are four bytes, and fails with TruncatedHeader otherwise; the count is the little-endian i32 when it is not negative, and 0 when it is |
| Decoder.NegativeCountIsEmpty | src/main.rs:192-196 | a negative count runs the loops no times: `list` gives no entries, the archive decodes as empty, and `unzip` writes nothing, whatever follows the header |
| Decoder.ReadMeta | src/main.rs:197-207 | a successful record read has as path the number of bytes the length byte gives, taken right after it, which is valid UTF-8, and the type the following byte decodes to; the pointer ends past the type byte, inside the buffer; a failure is TruncatedMetadata or InvalidPath; InvalidPath occurs exactly when the path bytes are present and not UTF-8, and TruncatedMetadata only when the record runs past the end |
| Decoder.ReadPayload | src/main.rs:226-228 | a successful payload read returns the bytes right after the size field, as many as it says, and the pointer ends past them, inside the buffer; a failure is TruncatedPayload, for a missing size field, a negative size or a size running past the end |
| Decoder.ParseMetas | src/main.rs:195-208 | a successful metadata parse yields exactly the requested number of entries |
| Decoder.ParsePayloads | src/main.rs:226-238 | the payload records with every entry written: a successful parse yields one payload per entry and a position inside the buffer; `DecodeEncode` and `TruncatedArchive` give its values and failures |
| Decoder.DecodeList | src/main.rs:124-135 | `list`'s decode: a buffer under four bytes fails with TruncatedHeader, and a successful listing has exactly as many entries as the (non-negative) count; `DecodeEncode`, `ListAgreesWithUnzip` and `TruncatedArchive` give the rest |
| Decoder.DecodeArchive | src/main.rs:192-239 | a decoded archive has one payload per entry |
| Decoder.ReadRecord | src/main.rs:197-207 | the method reads the record the specification `ReadMeta` describes, failing where the source panics |
| Decoder.ReadMetadata | src/main.rs:195-208 | the metadata loop returns the entries in wire order and the pointer after them, or the first failure |
| Decoder.List | src/main.rs:116-137 | `list` reports exactly the entries that `DecodeList` decodes |
| Decoder.ListAgreesWithUnzip | src/main.rs:124-135 | `list` and `unzip` see the same entries, and a buffer that cannot be listed cannot be unpacked |
| Decoder.ExtractFrom | src/main.rs:209-239 | the loop as written never writes more files than entries remain |
| Decoder.ExtractEntry | src/main.rs:210-238 | one turn of the payload loop: it skips, fails or writes the entry just as the as-written loop specifies, and hands on the pointer |
| Decoder.ExtractPayloads | src/main.rs:209-239 | the payload loop yields the files written and the stopping error of the as-written specification |
| Decoder.UnzipSpec | src/main.rs:182-239 | `unzip` as written: it fails with the `list` error when the header or the metadata cannot be read, and otherwise writes at most one file per listed entry; its skip paths are characterised by SkipMisalignsNextPayload (a create failure), WriteFailureMisreadsSize (a write failure) and UnzipWithoutFaults (no failure) |
| Decoder.UnzipFixed | src/main.rs:182-239 | corrected `unzip`: the same failures as `list` on header and metadata, at most one file per listed entry; characterised by UnzipFixedWritesOwnPayloads |
| Decoder.ExtractFixed | src/main.rs:209-239 | the corrected payload loop, which reads every entry's size and payload whether or not the file is written: it writes at most one file per remaining entry; characterised by `ExtractFixedKeeps` |
| Decoder.Unzip | src/main.rs:182-241 | `unzip` behaves as the as-written specification, skip-path misalignment included |
| Decoder.SkipMisalignsNextPayload | src/main.rs:219-228 | for a two-file archive whose first file cannot be created, `unzip` as written gives the second file the first file's bytes; the corrected loop gives it its own |
| Decoder.WriteFailureMisreadsSize | src/main.rs:226-235 | for the same archive when writing the first file fails, `unzip` as written passes only its size, reads 257 as the second file's size and stops on a truncated payload (the source panics slicing at :228); the corrected loop writes the second file with its own payload |
| Decoder.Kept | src/main.rs:209-239 | the intended output never has more files than entries remain |
| Decoder.ExtractFixedKeeps | src/main.rs:209-239 | the corrected loop writes each entry that does not fail, with its own payload, in order, and no error |
| Decoder.UnzipFixedWritesOwnPayloads | src/main.rs:209-239 | for any archive that decodes, corrected `unzip` writes exactly the non-failing entries, each with its own payload |
| Decoder.NoFaultsNoDrift | src/main.rs:209-239 | without filesystem faults, the as-written loop and the corrected one agree |
| Decoder.UnzipWithoutFaults | src/main.rs:182-241 | when nothing fails, `unzip` as written writes every entry with its own payload |
| RoundTrip.DecodeEncode | src/main.rs:282-324 | for entries with UTF-8 paths of at most 255 bytes and payloads that fit an i32: decoding the layout gives back the entries and payloads, `list` gives back the entries, and corrected `unzip` writes each non-failing entry with its own bytes |
| RoundTrip.EncodeCheckedRoundTrip | src/main.rs:289-299 | whatever the checked encoder accepts with UTF-8 paths (the only paths the walk produces) decodes back to its input |
| RoundTrip.LongPathBreaksRoundTrip | src/main.rs:289 | a 256-byte path is written with length byte 0, so `list` shows an empty path of Unknown type and the archive no longer decodes; the checked encoder refuses it |
| RoundTrip.DiscoverKnownUtf8 | src/main.rs:250-271 | every recognised file the walk finds has a path made of UTF-8 names |
| RoundTrip.PackedEntriesKnown | src/main.rs:268-271 | the packed entries have UTF-8 paths and are never Unknown |
| RoundTrip.PackedEntries | src/main.rs:285-300 | the entries `zip` writes: the textures, then the other recognised files, each in discovery order; characterised by `TexturesFirst` and `PackedEntriesKnown` |
| RoundTrip.TexturesFirst | src/main.rs:268-300 | one entry per texture and per other recognised file; every texture entry comes before every non-texture entry, and none is Unknown |
| RoundTrip.PackChecked | src/main.rs:153-155 | `zip` with the checked encoder: it fails exactly as `zip` where `zip` fails, and writes the same bytes where it succeeds; characterised by PackCheckedRefusesOnlyMisfits |
| RoundTrip.Pack | src/main.rs:153-155 | `zip` as written fails with WalkFailed when the walk fails, with ReadFailed exactly when a file to be packed cannot be read, and otherwise gives the layout of the walk's textures followed by its other files, long paths truncated |
| RoundTrip.PackCheckedRefusesOnlyMisfits | src/main.rs:153-155 | `zip` with the corrected encoder fails wherever `zip` as written fails, and beyond that only on what does not fit the format, a path over 255 bytes with PathTooLong; where it succeeds it writes the same bytes |
| RoundTrip.PackUnpack | src/main.rs:139-180 | after a successful `zip` of files that fit the format, the archive decodes to the walk's textures and then its other files, each with the bytes read from it; `list` shows them; none is Unknown; and corrected `unzip` writes each non-failing one with its own bytes |
| Truncation.ParseMetasCut | src/main.rs:195-208 | metadata records that run past the end of a cut buffer fail with TruncatedMetadata |
| Truncation.ParsePayloadsCut | src/main.rs:226-228 | payload records that run past the end of a cut buffer fail with TruncatedPayload |
| Truncation.TruncatedArchive | src/main.rs:192-228 | an archive cut short anywhere no longer decodes, failing with TruncatedHeader, TruncatedMetadata or TruncatedPayload as the cut falls in the count, the metadata or the payloads; `list` still lists an archive cut inside its payloads |

## Left out

- Deflate compression and decompression (`flate2`) are not modelled. The
  model works on the uncompressed buffer, so the foreign compression code is
  treated as the identity.
- Command-line handling is not modelled: `main`, `print_help`, the usage
  messages, the default archive and target names, and process exits.
- Console output is not modelled. This covers the `println!`s and the
  `Display` implementation of `FileType`.
- Filesystem I/O is replaced by values:
  - the `Node` tree for `read_dir` and `metadata`;
  - `Option` contents for reading assets;
  - the fault map for `create_dir_all`, `open` and `write_all`.
  Joining the target folder onto a path, `strip_prefix` against the
  absolute root, and the platform separator are not modelled. An archive
  path is the walked names joined with `/`.
- Character handling differs from Rust in two ways:
  - lower-casing folds ASCII letters only, not the full Unicode mapping of
    `to_lowercase`;
  - names are their UTF-8 bytes.
- Walker.GetFileList: on failure, the model says nothing about the partly
  filled lists, which the source leaves behind when it returns an error
  partway.
- Encoder.WriteRawData: the model does not say what `data` holds when the
  method fails partway, or what was printed.
- Overflow checks of a debug build are not modelled. They apply to the
  i32 `+` of the two list lengths (src/main.rs:283), which the model wraps
  as a release build does. They also apply to `pointer + size as usize`
  (src/main.rs:228). There, a negative size fails as a payload read in
  both builds. The `as` casts truncate in every build, and the model
  writes them out.
- Decoder.Unzip: an entry whose path consists only of `/` joins onto the
  target folder as the root `/`, whose `parent()` is None, so the source
  panics at `parent().unwrap()` (src/main.rs:212). The model treats that
  entry as an ordinary one, because joining onto the target folder is not
  modelled.
- Decoder.Unzip: the model records only the files written completely.
  - A file created before a payload panic, or before a failed write, is left
    out of `written`.
  - Folders that were created are not recorded.

## Findings

| source | as written | input that shows it | evidently intended | confidence | as-written member | corrected member |
|---|---|---|---|---|---|---|
| src/main.rs:212-226 | when a folder or file cannot be created, the entry is skipped before its size is read, so the pointer stays at that entry's payload record and the next entry is written with the skipped entry's bytes | a two-file archive `a`, `b` with payloads `[1]`, `[2]` where creating `a` fails: `b` is written with `[1]` | every entry's size and payload are passed whether or not the file is written, so each written file gets its own payload | not executed | Decoder.SkipMisalignsNextPayload | Decoder.UnzipFixedWritesOwnPayloads |
| src/main.rs:226-235 | when a write fails, only the 4-byte size has been passed (:227) before the skip at :235, so the next entry reads its size from inside the skipped payload and the run stops on a garbage size | the same archive where writing `a` fails: `b` reads the size 257 from `[1, 1, 0, 0]` and the slice at :228 is out of range | every entry's size and payload are passed whether or not the file is written, so each written file gets its own payload | not executed | Decoder.WriteFailureMisreadsSize | Decoder.UnzipFixedWritesOwnPayloads |
| src/main.rs:289 | `archive_path_string.len() as u8` truncates the length of a path longer than 255 bytes, so the metadata no longer matches the bytes that follow | one file whose archive path is 256 bytes: the length byte is 0, `list` shows an empty path of Unknown type, and the payloads no longer decode | refuse paths that do not fit the one-byte length field | not executed | RoundTrip.LongPathBreaksRoundTrip | RoundTrip.EncodeCheckedRoundTrip |
