/** The archive writer `write_raw_data`: it turns the walker's texture list
    and file list into the raw archive bytes. Reading each asset file is
    replaced by a given sequence of read outcomes, one per list entry. */
module Encoder {
  import opened Wire
  import opened FileTypes
  import opened Walker
  import opened Layout

  const SLASH: byte := 0x2F

  /** The archive path of a file: its path below the archived directory
      with `/` between the names (`strip_prefix` followed by replacing the
      platform separator with `/`). */
  function ArchivePath(path: seq<Name>): seq<byte>
  {
    if |path| == 0 then []
    else if |path| == 1 then path[0]
    else path[0] + [SLASH] + ArchivePath(path[1..])
  }

  /** The archive path starts with the first name and ends with the last;
      a `/` follows the first name whenever there is another. */
  lemma {:induction false} ArchivePathEnds(path: seq<Name>)
    requires |path| > 0
    ensures path[0] <= ArchivePath(path)
    ensures |path| > 1 ==> |path[0]| < |ArchivePath(path)| && ArchivePath(path)[|path[0]|] == SLASH
    ensures |path[|path| - 1]| <= |ArchivePath(path)|
    ensures ArchivePath(path)[|ArchivePath(path)| - |path[|path| - 1]|..] == path[|path| - 1]
    decreases |path|
  {
    if |path| > 1 {
      var rest := ArchivePath(path[1..]);
      ArchivePathEnds(path[1..]);
      var last := path[|path| - 1];
      assert path[1..][|path[1..]| - 1] == last;
      var r := path[0] + [SLASH] + rest;
      assert r[|r| - |last|..] == rest[|rest| - |last|..];
    }
  }

  /** Joining two non-empty runs of names gives the two joins with one `/`
      between them; with `ArchivePath([n]) == n` this fixes the archive
      path of every depth, each directory name in its place. */
  lemma {:induction false} ArchivePathAppend(a: seq<Name>, b: seq<Name>)
    requires |a| > 0 && |b| > 0
    ensures ArchivePath(a + b) == ArchivePath(a) + [SLASH] + ArchivePath(b)
    decreases |a|
  {
    assert (a + b)[0] == a[0];
    assert (a + b)[1..] == a[1..] + b;
    if |a| > 1 {
      ArchivePathAppend(a[1..], b);
      ConcatAssoc(a[0] + [SLASH], ArchivePath(a[1..]) + [SLASH], ArchivePath(b));
    }
  }

  /** A path of UTF-8 names gives a UTF-8 archive path, which the reader's
      `String::from_utf8` accepts. */
  lemma {:induction false} ArchivePathUtf8(path: seq<Name>)
    requires AllUtf8(path)
    ensures ValidUtf8(ArchivePath(path))
    decreases |path|
  {
    if |path| == 0 {
    } else if |path| == 1 {
      assert ValidUtf8(path[0]);
    } else {
      assert ValidUtf8(path[0]);
      assert AllUtf8(path[1..]) by {
        forall i | 0 <= i < |path| - 1 ensures ValidUtf8(path[1..][i]) {
          assert path[1..][i] == path[i + 1];
        }
      }
      ArchivePathUtf8(path[1..]);
      AsciiIsValidUtf8([SLASH]);
      ValidUtf8Concat(path[0], [SLASH]);
      ValidUtf8Concat(path[0] + [SLASH], ArchivePath(path[1..]));
    }
  }

  /** The archive entry a walked file is written as. */
  function ToEntry(m: FileMeta): Entry
  {
    Entry(ArchivePath(m.path), m.fileType)
  }

  function Entries(ms: seq<FileMeta>): (r: seq<Entry>)
    ensures |r| == |ms| && forall i :: 0 <= i < |ms| ==> r[i] == ToEntry(ms[i])
  {
    seq(|ms|, i requires 0 <= i < |ms| => ToEntry(ms[i]))
  }

  /** Every asset file could be opened and read to the end. */
  predicate AllRead(loaded: seq<Option<seq<byte>>>)
  {
    forall i :: 0 <= i < |loaded| ==> loaded[i].Some?
  }

  /** The bytes that were read, in order. */
  function Payloads(loaded: seq<Option<seq<byte>>>): (r: seq<seq<byte>>)
    requires AllRead(loaded)
    ensures |r| == |loaded| && forall i :: 0 <= i < |loaded| ==> r[i] == loaded[i].value
  {
    seq(|loaded|, i requires 0 <= i < |loaded| => loaded[i].value)
  }

  lemma EntriesStep(ms: seq<FileMeta>, i: nat)
    requires i < |ms|
    ensures Entries(ms[..i + 1]) == Entries(ms[..i]) + [ToEntry(ms[i])]
  {
  }

  lemma PayloadsStep(loaded: seq<Option<seq<byte>>>, i: nat)
    requires i < |loaded| && AllRead(loaded[..i + 1])
    ensures AllRead(loaded[..i])
    ensures Payloads(loaded[..i + 1]) == Payloads(loaded[..i]) + [loaded[i].value]
  {
    assert forall j :: 0 <= j < i ==> loaded[..i][j] == loaded[..i + 1][j];
  }

  lemma MetaStep(list: seq<FileMeta>, i: nat)
    requires i < |list|
    ensures MetaBlock(Entries(list[..i + 1])) == MetaBlock(Entries(list[..i])) + MetaRecord(ToEntry(list[i]))
  {
    EntriesStep(list, i);
    MetaBlockSnoc(Entries(list[..i]), ToEntry(list[i]));
  }

  lemma ConcatAssoc(a: seq<byte>, b: seq<byte>, c: seq<byte>)
    ensures a + b + c == a + (b + c)
  {
  }

  /** One of the two metadata loops of `write_raw_data`: appends, for each
      file of `list` in order, its archive path's length (truncated to a
      byte), the path and the type code. */
  method WriteMetadata(data: seq<byte>, list: seq<FileMeta>) returns (data': seq<byte>)
    ensures data' == data + MetaBlock(Entries(list))
  {
    data' := data;
    for i := 0 to |list|
      invariant data' == data + MetaBlock(Entries(list[..i]))
    {
      ghost var before := data';
      data' := WriteRecord(data', ToEntry(list[i]));
      MetaStep(list, i);
      ConcatAssoc(data, MetaBlock(Entries(list[..i])), MetaRecord(ToEntry(list[i])));
    }
    assert list[..|list|] == list;
  }

  /** One pass of the metadata loop's body: the path length as a byte, the
      path bytes and the type code, appended in that order. */
  method WriteRecord(data: seq<byte>, e: Entry) returns (data': seq<byte>)
    ensures data' == data + MetaRecord(e)
  {
    data' := data + [|e.path| % 256];
    data' := data' + e.path;
    data' := data' + [ToByte(e.fileType)];
  }

  /** One of the two payload loops of `write_raw_data`: appends, for each
      file in order, the length of what was read (as an i32) and the bytes;
      a file that cannot be opened or read aborts the whole write. */
  method WritePayloads(data: seq<byte>, loaded: seq<Option<seq<byte>>>) returns (r: Result<seq<byte>>)
    ensures r.Success? <==> AllRead(loaded)
    ensures r.Success? ==> r.value == data + PayloadBlock(Payloads(loaded))
    ensures r.Failure? ==> r.error == ReadFailed
  {
    var data' := data;
    for i := 0 to |loaded|
      invariant AllRead(loaded[..i])
      invariant data' == data + PayloadBlock(Payloads(loaded[..i]))
    {
      if loaded[i].None? {
        return Failure(ReadFailed);
      }
      var buffer := loaded[i].value;
      ghost var before := data';
      data' := data' + LeI32(|buffer|);
      data' := data' + buffer;
      assert data' == before + PayloadRecord(buffer);
      PayloadsStep(loaded, i);
      PayloadBlockSnoc(Payloads(loaded[..i]), buffer);
      ConcatAssoc(data, PayloadBlock(Payloads(loaded[..i])), PayloadRecord(buffer));
    }
    assert loaded[..|loaded|] == loaded;
    return Success(data');
  }

  /** `write_raw_data(data, path, texture_list, file_list)`, starting from an
      empty `data`. It succeeds exactly when every asset could be read, and
      then yields the raw archive of the textures followed by the files,
      with their payloads in the same order. A failed read aborts it (the
      source's `?`), and the caller then writes nothing. */
  method WriteRawData(textures: seq<FileMeta>, files: seq<FileMeta>,
                      textureLoads: seq<Option<seq<byte>>>, fileLoads: seq<Option<seq<byte>>>)
    returns (r: Result<seq<byte>>)
    requires |textureLoads| == |textures| && |fileLoads| == |files|
    ensures r.Success? <==> AllRead(textureLoads) && AllRead(fileLoads)
    ensures r.Success? ==> r.value == Encode(Entries(textures) + Entries(files),
                                             Payloads(textureLoads) + Payloads(fileLoads))
    ensures r.Failure? ==> r.error == ReadFailed
  {
    var data := LeI32(|textures| + |files|);
    data := WriteMetadata(data, textures);
    data := WriteMetadata(data, files);
    var written := WritePayloads(data, textureLoads);
    if written.Failure? {
      return written;
    }
    r := WritePayloads(written.value, fileLoads);
    if r.Success? {
      WrittenInOrder(textures, files, textureLoads, fileLoads, r.value);
    }
  }

  /** The four loops' output, piece by piece, is the encoding of both lists. */
  lemma WrittenInOrder(textures: seq<FileMeta>, files: seq<FileMeta>,
                       textureLoads: seq<Option<seq<byte>>>, fileLoads: seq<Option<seq<byte>>>, data: seq<byte>)
    requires |textureLoads| == |textures| && |fileLoads| == |files|
    requires AllRead(textureLoads) && AllRead(fileLoads)
    requires data == LeI32(|textures| + |files|) + MetaBlock(Entries(textures)) + MetaBlock(Entries(files))
                     + PayloadBlock(Payloads(textureLoads)) + PayloadBlock(Payloads(fileLoads))
    ensures data == Encode(Entries(textures) + Entries(files), Payloads(textureLoads) + Payloads(fileLoads))
  {
    TexturesThenFiles(Entries(textures), Entries(files), Payloads(textureLoads), Payloads(fileLoads));
  }

  /** Some entry's path is too long for its one-byte length field. */
  predicate SomePathTooLong(es: seq<Entry>)
  {
    exists i :: 0 <= i < |es| && |es[i].path| > 255
  }

  /** Some payload is too long for its i32 length field. */
  predicate SomePayloadTooLarge(ps: seq<seq<byte>>)
  {
    exists i :: 0 <= i < |ps| && |ps[i]| >= TWO_31
  }

  /** The encoder as evidently intended: an archive path longer than 255
      bytes is refused with PathTooLong and nothing is written, instead of
      having its length silently truncated by `as u8`; likewise a count or
      payload length that does not fit an i32. Otherwise it is `Encode`. */
  function EncodeChecked(es: seq<Entry>, ps: seq<seq<byte>>): (r: Result<seq<byte>>)
    requires |es| == |ps|
    ensures SomePathTooLong(es) ==> r == Failure(PathTooLong)
    ensures r.Failure? <==> SomePathTooLong(es) || |es| >= TWO_31 || SomePayloadTooLarge(ps)
    ensures r.Success? ==> r.value == Encode(es, ps)
  {
    if SomePathTooLong(es) then Failure(PathTooLong)
    else if |es| >= TWO_31 || SomePayloadTooLarge(ps) then Failure(TooLarge)
    else Success(Encode(es, ps))
  }
}
