/** The archive readers: the metadata loop shared by `list` and `unzip`, and
    `unzip`'s payload loop. Both walk a `pointer` over the raw archive bytes.
    Where the source indexes out of range or unwraps a failed UTF-8
    conversion (a panic), the model stops with an explicit error. */
module Decoder {
  import opened Wire
  import opened FileTypes
  import opened Layout

  /** `i32::from_le_bytes(data[0..4])`, with the loop `for _ in 0..n` that
      runs no times when the count is negative. */
  function EntryCount(data: seq<byte>): (r: Result<nat>)
    ensures r.Success? <==> |data| >= 4
    ensures r.Failure? ==> r.error == TruncatedHeader
    ensures r.Success? ==> r.value < TWO_31
    ensures r.Success? && ReadLeI32(data[..4]) >= 0 ==> r.value == ReadLeI32(data[..4])
    ensures r.Success? && ReadLeI32(data[..4]) < 0 ==> r.value == 0
  {
    if |data| < 4 then Failure(TruncatedHeader)
    else
      var n := ReadLeI32(data[..4]);
      Success(if n < 0 then 0 else n)
  }

  /** One metadata record at `pos`: the entry and the position after it. The
      checks come in the source's order: length byte, path slice, UTF-8,
      type byte. */
  function ReadMeta(data: seq<byte>, pos: nat): (r: Result<(Entry, nat)>)
    ensures r.Success? ==> pos + 2 <= r.value.1 <= |data|
    ensures r.Success? ==> r.value.1 == pos + 2 + |r.value.0.path|
    ensures r.Success? ==> data[pos] == |r.value.0.path| && r.value.0.path == data[pos + 1..r.value.1 - 1]
    ensures r.Success? ==> ValidUtf8(r.value.0.path) && r.value.0.fileType == FromByte(data[r.value.1 - 1])
    ensures r.Failure? ==> r.error in {TruncatedMetadata, InvalidPath}
    ensures r.Failure? && r.error == InvalidPath ==>
      pos < |data| && pos + 1 + data[pos] <= |data| && !ValidUtf8(data[pos + 1..pos + 1 + data[pos]])
    ensures pos < |data| && pos + 1 + data[pos] <= |data| && !ValidUtf8(data[pos + 1..pos + 1 + data[pos]]) ==>
      r == Failure(InvalidPath)
    ensures r.Failure? && r.error == TruncatedMetadata ==> pos >= |data| || pos + 2 + data[pos] > |data|
  {
    if pos >= |data| then Failure(TruncatedMetadata)
    else
      var len := data[pos] as nat;
      if pos + 1 + len > |data| then Failure(TruncatedMetadata)
      else
        var path := data[pos + 1..pos + 1 + len];
        if !ValidUtf8(path) then Failure(InvalidPath)
        else if pos + 1 + len >= |data| then Failure(TruncatedMetadata)
        else Success((Entry(path, FromByte(data[pos + 1 + len])), pos + 2 + len))
  }

  /** `n` metadata records from `pos`: the entries in wire order and the
      position after the last one. */
  function ParseMetas(data: seq<byte>, pos: nat, n: nat): (r: Result<(seq<Entry>, nat)>)
    ensures r.Success? ==> |r.value.0| == n && pos <= r.value.1
    ensures r.Success? && n > 0 ==> r.value.1 <= |data|
    decreases n
  {
    if n == 0 then Success(([], pos))
    else
      match ReadMeta(data, pos)
      case Failure(e) => Failure(e)
      case Success((entry, next)) =>
        match ParseMetas(data, next, n - 1)
        case Failure(e) => Failure(e)
        case Success((rest, end)) => Success(([entry] + rest, end))
  }

  /** One payload record at `pos`: the bytes and the position after them. A
      negative size or one that runs past the end cannot be sliced. */
  function ReadPayload(data: seq<byte>, pos: nat): (r: Result<(seq<byte>, nat)>)
    ensures r.Success? ==> r.value.1 == pos + 4 + |r.value.0| <= |data|
    ensures r.Success? ==> ReadLeI32(data[pos..pos + 4]) == |r.value.0| && r.value.0 == data[pos + 4..r.value.1]
    ensures r.Failure? ==> r.error == TruncatedPayload
    ensures r.Failure? && pos + 4 <= |data| ==>
      ReadLeI32(data[pos..pos + 4]) < 0 || pos + 4 + ReadLeI32(data[pos..pos + 4]) > |data|
  {
    if pos + 4 > |data| then Failure(TruncatedPayload)
    else
      var size := ReadLeI32(data[pos..pos + 4]);
      if size < 0 || pos + 4 + size > |data| then Failure(TruncatedPayload)
      else Success((data[pos + 4..pos + 4 + size], pos + 4 + size))
  }

  /** `n` payload records from `pos`, in order. */
  function ParsePayloads(data: seq<byte>, pos: nat, n: nat): (r: Result<(seq<seq<byte>>, nat)>)
    ensures r.Success? ==> |r.value.0| == n && pos <= r.value.1
    ensures r.Success? && n > 0 ==> r.value.1 <= |data|
    decreases n
  {
    if n == 0 then Success(([], pos))
    else
      match ReadPayload(data, pos)
      case Failure(e) => Failure(e)
      case Success((payload, next)) =>
        match ParsePayloads(data, next, n - 1)
        case Failure(e) => Failure(e)
        case Success((rest, end)) => Success(([payload] + rest, end))
  }

  /** What `list` reads: the count, then the metadata records. */
  function DecodeList(data: seq<byte>): (r: Result<seq<Entry>>)
    ensures |data| < 4 ==> r == Failure(TruncatedHeader)
    ensures r.Success? ==> |data| >= 4 && |r.value| == EntryCount(data).value
  {
    match EntryCount(data)
    case Failure(e) => Failure(e)
    case Success(n) =>
      match ParseMetas(data, 4, n)
      case Failure(e) => Failure(e)
      case Success((entries, _)) => Success(entries)
  }

  /** A whole archive: the metadata records, then as many payload records,
      paired with the entries by position. */
  function DecodeArchive(data: seq<byte>): (r: Result<Archive>)
    ensures r.Success? ==> |r.value.entries| == |r.value.payloads|
  {
    match EntryCount(data)
    case Failure(e) => Failure(e)
    case Success(n) =>
      match ParseMetas(data, 4, n)
      case Failure(e) => Failure(e)
      case Success((entries, next)) =>
        match ParsePayloads(data, next, n)
        case Failure(e) => Failure(e)
        case Success((payloads, _)) => Success(Archive(entries, payloads))
  }

  /** `list` and `unzip` read the same metadata: whenever a whole archive
      decodes, listing it gives exactly its entries, and a buffer that
      cannot be listed cannot be unpacked either. */
  lemma ListAgreesWithUnzip(data: seq<byte>)
    ensures DecodeArchive(data).Success? ==> DecodeList(data) == Success(DecodeArchive(data).value.entries)
    ensures DecodeList(data).Failure? ==> DecodeArchive(data) == Failure(DecodeList(data).error)
  {
  }

  /** A negative count makes `for _ in 0..n` run no times: the archive is
      read as empty, whatever follows the header. */
  lemma NegativeCountIsEmpty(data: seq<byte>)
    requires |data| >= 4 && ReadLeI32(data[..4]) < 0
    ensures DecodeList(data) == Success([])
    ensures DecodeArchive(data) == Success(Archive([], []))
    ensures UnzipSpec(data, map[]) == UnzipRun([], None)
  {
  }

  /** The metadata loop of `list` and `unzip` (the source repeats it in
      both): `n` times, read a length byte, that many path bytes as UTF-8,
      and a type byte, pushing each entry. */
  method ReadMetadata(data: seq<byte>, n: nat) returns (r: Result<(seq<Entry>, nat)>)
    ensures r == ParseMetas(data, 4, n)
  {
    var entries: seq<Entry> := [];
    var pointer: nat := 4;
    var i := 0;
    assert PrependEntries([], ParseMetas(data, pointer, n)) == ParseMetas(data, pointer, n) by {
      var r := ParseMetas(data, pointer, n);
      if r.Success? {
        assert [] + r.value.0 == r.value.0;
      }
    }
    while i < n
      invariant 0 <= i <= n
      invariant ParseMetas(data, 4, n) == PrependEntries(entries, ParseMetas(data, pointer, n - i))
    {
      var record := ReadRecord(data, pointer);
      if record.Failure? {
        ParseMetasFails(data, pointer, n - i);
        return Failure(record.error);
      }
      var (entry, next) := record.value;
      ParseMetasAdvance(data, entries, pointer, n - i, entry, next);
      entries := entries + [entry];
      pointer := next;
      i := i + 1;
    }
    assert entries + [] == entries;
    return Success((entries, pointer));
  }

  /** One pass of the metadata loop's body: the length byte, that many path
      bytes converted from UTF-8, the type byte, with the pointer moved past
      each. */
  method ReadRecord(data: seq<byte>, start: nat) returns (r: Result<(Entry, nat)>)
    ensures r == ReadMeta(data, start)
  {
    var pointer := start;
    if pointer >= |data| {
      return Failure(TruncatedMetadata);
    }
    var pathLength := data[pointer] as nat;
    pointer := pointer + 1;
    if pointer + pathLength > |data| {
      return Failure(TruncatedMetadata);
    }
    var path := data[pointer..pointer + pathLength];
    if !ValidUtf8(path) {
      return Failure(InvalidPath);
    }
    pointer := pointer + pathLength;
    if pointer >= |data| {
      return Failure(TruncatedMetadata);
    }
    var fileType := FromByte(data[pointer]);
    pointer := pointer + 1;
    return Success((Entry(path, fileType), pointer));
  }

  function PrependEntries(es: seq<Entry>, r: Result<(seq<Entry>, nat)>): Result<(seq<Entry>, nat)>
  {
    match r
    case Failure(e) => Failure(e)
    case Success((rest, end)) => Success((es + rest, end))
  }

  lemma ParseMetasStep(data: seq<byte>, pos: nat, k: nat)
    requires k > 0 && ReadMeta(data, pos).Success?
    ensures ParseMetas(data, pos, k)
         == PrependEntries([ReadMeta(data, pos).value.0], ParseMetas(data, ReadMeta(data, pos).value.1, k - 1))
  {
  }

  /** One turn of the metadata loop keeps what is left to parse in step
      with the entries pushed so far. */
  lemma ParseMetasAdvance(data: seq<byte>, entries: seq<Entry>, pos: nat, k: nat, entry: Entry, next: nat)
    requires k > 0 && ReadMeta(data, pos) == Success((entry, next))
    ensures PrependEntries(entries, ParseMetas(data, pos, k))
         == PrependEntries(entries + [entry], ParseMetas(data, next, k - 1))
  {
    ParseMetasStep(data, pos, k);
    var r := ParseMetas(data, next, k - 1);
    if r.Success? {
      assert entries + ([entry] + r.value.0) == (entries + [entry]) + r.value.0;
    }
  }

  lemma ParseMetasFails(data: seq<byte>, pos: nat, k: nat)
    requires k > 0 && ReadMeta(data, pos).Failure?
    ensures ParseMetas(data, pos, k) == Failure(ReadMeta(data, pos).error)
  {
  }

  /** `list`: the count, then the entries' paths and types. */
  method List(data: seq<byte>) returns (r: Result<seq<Entry>>)
    ensures r == DecodeList(data)
  {
    if |data| < 4 {
      return Failure(TruncatedHeader);
    }
    var count := ReadLeI32(data[0..4]);
    assert data[0..4] == data[..4];
    var n: nat := if count < 0 then 0 else count;
    var metas := ReadMetadata(data, n);
    match metas {
      case Failure(e) => return Failure(e);
      case Success((entries, _)) => return Success(entries);
    }
  }

  /** What goes wrong for one file while `unzip` materialises it: its folder
      cannot be created, the file cannot be created, or writing its bytes
      fails. Each is reported and the file skipped. */
  datatype Fault = DirFails | OpenFails | WriteFails

  /** A file `unzip` wrote completely: its archive path (joined below the
      target folder) and its bytes. */
  datatype Written = Written(path: seq<byte>, bytes: seq<byte>)

  /** The outcome of an `unzip` run: the files written, in order, and the
      error that stopped it, if any. Files written before an error stay. */
  datatype UnzipRun = UnzipRun(written: seq<Written>, error: Option<Error>)

  function PrependRun(w: seq<Written>, run: UnzipRun): UnzipRun
  {
    UnzipRun(w + run.written, run.error)
  }

  /** The payload loop of `unzip` as written, from entry `idx` with the
      pointer at `ptr`. A folder or file that cannot be created skips the
      entry BEFORE its size is read, and a failed write skips it after only
      the size was passed, so in both cases the pointer is left inside the
      payload stream and the following entries read the wrong bytes. */
  function ExtractFrom(data: seq<byte>, es: seq<Entry>, idx: nat, ptr: nat, faults: map<nat, Fault>): (run: UnzipRun)
    ensures idx <= |es| ==> |run.written| <= |es| - idx
    decreases |es| - idx
  {
    if idx >= |es| then UnzipRun([], None)
    else if idx in faults && faults[idx] != WriteFails then ExtractFrom(data, es, idx + 1, ptr, faults)
    else
      match ReadPayload(data, ptr)
      case Failure(e) => UnzipRun([], Some(e))
      case Success((bytes, next)) =>
        if idx in faults then ExtractFrom(data, es, idx + 1, ptr + 4, faults)
        else PrependRun([Written(es[idx].path, bytes)], ExtractFrom(data, es, idx + 1, next, faults))
  }

  /** `unzip` as written: the count, the metadata, then the payload loop. */
  function UnzipSpec(data: seq<byte>, faults: map<nat, Fault>): (run: UnzipRun)
    ensures DecodeList(data).Failure? ==> run == UnzipRun([], Some(DecodeList(data).error))
    ensures DecodeList(data).Success? ==> |run.written| <= |DecodeList(data).value|
  {
    match EntryCount(data)
    case Failure(e) => UnzipRun([], Some(e))
    case Success(n) =>
      match ParseMetas(data, 4, n)
      case Failure(e) => UnzipRun([], Some(e))
      case Success((es, next)) => ExtractFrom(data, es, 0, next, faults)
  }

  /** The payload loop with the evident intent: every entry's size is read
      and its payload passed, whether the file is then written or skipped. */
  function ExtractFixed(data: seq<byte>, es: seq<Entry>, idx: nat, ptr: nat, faults: map<nat, Fault>): (run: UnzipRun)
    ensures idx <= |es| ==> |run.written| <= |es| - idx
    decreases |es| - idx
  {
    if idx >= |es| then UnzipRun([], None)
    else
      match ReadPayload(data, ptr)
      case Failure(e) => UnzipRun([], Some(e))
      case Success((bytes, next)) =>
        if idx in faults then ExtractFixed(data, es, idx + 1, next, faults)
        else PrependRun([Written(es[idx].path, bytes)], ExtractFixed(data, es, idx + 1, next, faults))
  }

  /** `unzip` with the skip paths corrected. */
  function UnzipFixed(data: seq<byte>, faults: map<nat, Fault>): (run: UnzipRun)
    ensures DecodeList(data).Failure? ==> run == UnzipRun([], Some(DecodeList(data).error))
    ensures DecodeList(data).Success? ==> |run.written| <= |DecodeList(data).value|
  {
    match EntryCount(data)
    case Failure(e) => UnzipRun([], Some(e))
    case Success(n) =>
      match ParseMetas(data, 4, n)
      case Failure(e) => UnzipRun([], Some(e))
      case Success((es, next)) => ExtractFixed(data, es, 0, next, faults)
  }

  /** The files an archive should materialise: each entry that does not
      fail, with its OWN payload, in archive order. */
  function Kept(es: seq<Entry>, ps: seq<seq<byte>>, faults: map<nat, Fault>, idx: nat): (w: seq<Written>)
    requires |es| == |ps|
    ensures idx <= |es| ==> |w| <= |es| - idx
    decreases |es| - idx
  {
    if idx >= |es| then []
    else (if idx in faults then [] else [Written(es[idx].path, ps[idx])]) + Kept(es, ps, faults, idx + 1)
  }

  /** The corrected loop writes every non-failing entry with its own
      payload: given the payloads the stream holds from entry `idx` on, it
      yields exactly `Kept` from `idx`, with no error. */
  lemma {:induction false} ExtractFixedKeeps(data: seq<byte>, es: seq<Entry>, ps: seq<seq<byte>>,
                                             faults: map<nat, Fault>, idx: nat, ptr: nat, end: nat)
    requires |es| == |ps| && idx <= |es|
    requires ParsePayloads(data, ptr, |es| - idx) == Success((ps[idx..], end))
    ensures ExtractFixed(data, es, idx, ptr, faults) == UnzipRun(Kept(es, ps, faults, idx), None)
    decreases |es| - idx
  {
    if idx < |es| {
      var next := ReadPayload(data, ptr).value.1;
      assert ReadPayload(data, ptr).value.0 == ps[idx];
      assert ParsePayloads(data, next, |es| - idx - 1) == Success((ps[idx + 1..], end)) by {
        assert ps[idx..][1..] == ps[idx + 1..];
      }
      ExtractFixedKeeps(data, es, ps, faults, idx + 1, next, end);
    }
  }

  /** The corrected `unzip` of an archive that decodes writes exactly the
      non-failing entries, each with its own payload. */
  lemma UnzipFixedWritesOwnPayloads(data: seq<byte>, faults: map<nat, Fault>)
    requires DecodeArchive(data).Success?
    ensures UnzipFixed(data, faults)
         == UnzipRun(Kept(DecodeArchive(data).value.entries, DecodeArchive(data).value.payloads, faults, 0), None)
  {
    var n := EntryCount(data).value;
    var es := ParseMetas(data, 4, n).value.0;
    var next := ParseMetas(data, 4, n).value.1;
    var ps := ParsePayloads(data, next, n).value.0;
    assert ps[0..] == ps;
    ExtractFixedKeeps(data, es, ps, faults, 0, next, ParsePayloads(data, next, n).value.1);
  }

  /** Without faults the source's loop and the corrected one coincide: the
      misalignment only arises on a skip path. */
  lemma {:induction false} NoFaultsNoDrift(data: seq<byte>, es: seq<Entry>, idx: nat, ptr: nat)
    ensures ExtractFrom(data, es, idx, ptr, map[]) == ExtractFixed(data, es, idx, ptr, map[])
    decreases |es| - idx
  {
    if idx < |es| && ReadPayload(data, ptr).Success? {
      NoFaultsNoDrift(data, es, idx + 1, ReadPayload(data, ptr).value.1);
    }
  }

  /** With no faults, `unzip` as written writes every entry of a decodable
      archive with its own payload. */
  lemma UnzipWithoutFaults(data: seq<byte>)
    ensures UnzipSpec(data, map[]) == UnzipFixed(data, map[])
    ensures DecodeArchive(data).Success? ==>
      UnzipSpec(data, map[]) == UnzipRun(Kept(DecodeArchive(data).value.entries, DecodeArchive(data).value.payloads, map[], 0), None)
  {
    if EntryCount(data).Success? && ParseMetas(data, 4, EntryCount(data).value).Success? {
      var n := EntryCount(data).value;
      NoFaultsNoDrift(data, ParseMetas(data, 4, n).value.0, 0, ParseMetas(data, 4, n).value.1);
    }
    if DecodeArchive(data).Success? {
      UnzipFixedWritesOwnPayloads(data, map[]);
    }
  }

  /** `unzip`: read the metadata, then for each entry create its folder and
      file and write its payload, skipping the entries whose folder, file or
      write fails (`faults`, by entry index). */
  method Unzip(data: seq<byte>, faults: map<nat, Fault>) returns (run: UnzipRun)
    ensures run == UnzipSpec(data, faults)
  {
    if |data| < 4 {
      return UnzipRun([], Some(TruncatedHeader));
    }
    var count := ReadLeI32(data[0..4]);
    assert data[0..4] == data[..4];
    var n: nat := if count < 0 then 0 else count;
    var metas := ReadMetadata(data, n);
    if metas.Failure? {
      return UnzipRun([], Some(metas.error));
    }
    run := ExtractPayloads(data, metas.value.0, metas.value.1, faults);
  }

  /** The payload loop of `unzip`, from the pointer where the metadata
      ended: per entry, a folder or file that cannot be created skips it at
      once; otherwise the size and the payload are sliced, and a failed write
      skips it with the pointer just past the size. */
  method ExtractPayloads(data: seq<byte>, fileList: seq<Entry>, start: nat, faults: map<nat, Fault>)
    returns (run: UnzipRun)
    ensures run == ExtractFrom(data, fileList, 0, start, faults)
  {
    var pointer: nat := start;
    var written: seq<Written> := [];
    assert [] + ExtractFrom(data, fileList, 0, pointer, faults).written == ExtractFrom(data, fileList, 0, pointer, faults).written;
    for i := 0 to |fileList|
      invariant ExtractFrom(data, fileList, 0, start, faults) == PrependRun(written, ExtractFrom(data, fileList, i, pointer, faults))
    {
      var w, next, error := ExtractEntry(data, fileList, i, pointer, faults);
      if error.Some? {
        assert written + [] == written;
        return UnzipRun(written, error);
      }
      PrependRunAssoc(written, w, ExtractFrom(data, fileList, i + 1, next, faults));
      written := written + w;
      pointer := next;
    }
    assert written + [] == written;
    return UnzipRun(written, None);
  }

  /** One turn of the payload loop, for entry `i` with the pointer at
      `pointer`: the file it writes (none when skipped), where the pointer
      ends up, or the error that stops the loop. */
  method ExtractEntry(data: seq<byte>, fileList: seq<Entry>, i: nat, pointer: nat, faults: map<nat, Fault>)
    returns (w: seq<Written>, next: nat, error: Option<Error>)
    requires i < |fileList|
    ensures error.Some? ==> ExtractFrom(data, fileList, i, pointer, faults) == UnzipRun([], error)
    ensures error.None? ==>
      ExtractFrom(data, fileList, i, pointer, faults) == PrependRun(w, ExtractFrom(data, fileList, i + 1, next, faults))
  {
    if i in faults && faults[i] != WriteFails {
      ExtractSkips(data, fileList, i, pointer, faults);
      assert [] + ExtractFrom(data, fileList, i + 1, pointer, faults).written == ExtractFrom(data, fileList, i + 1, pointer, faults).written;
      return [], pointer, None;
    }
    if pointer + 4 > |data| {
      ExtractFails(data, fileList, i, pointer, faults);
      return [], pointer, Some(TruncatedPayload);
    }
    var size := ReadLeI32(data[pointer..pointer + 4]);
    next := pointer + 4;
    if size < 0 || next + size > |data| {
      ExtractFails(data, fileList, i, pointer, faults);
      return [], next, Some(TruncatedPayload);
    }
    var bytes := data[next..next + size];
    assert ReadPayload(data, pointer) == Success((bytes, next + size));
    ExtractStep(data, fileList, i, pointer, faults);
    if i in faults {
      assert [] + ExtractFrom(data, fileList, i + 1, next, faults).written == ExtractFrom(data, fileList, i + 1, next, faults).written;
      return [], next, None;
    }
    next := next + size;
    return [Written(fileList[i].path, bytes)], next, None;
  }

  lemma PrependRunAssoc(a: seq<Written>, b: seq<Written>, run: UnzipRun)
    ensures PrependRun(a, PrependRun(b, run)) == PrependRun(a + b, run)
  {
    assert a + (b + run.written) == (a + b) + run.written;
  }

  lemma ExtractSkips(data: seq<byte>, es: seq<Entry>, idx: nat, ptr: nat, faults: map<nat, Fault>)
    requires idx < |es| && idx in faults && faults[idx] != WriteFails
    ensures ExtractFrom(data, es, idx, ptr, faults) == ExtractFrom(data, es, idx + 1, ptr, faults)
  {
  }

  lemma ExtractFails(data: seq<byte>, es: seq<Entry>, idx: nat, ptr: nat, faults: map<nat, Fault>)
    requires idx < |es| && !(idx in faults && faults[idx] != WriteFails) && ReadPayload(data, ptr).Failure?
    ensures ExtractFrom(data, es, idx, ptr, faults) == UnzipRun([], Some(ReadPayload(data, ptr).error))
  {
  }

  lemma ExtractStep(data: seq<byte>, es: seq<Entry>, idx: nat, ptr: nat, faults: map<nat, Fault>)
    requires idx < |es| && !(idx in faults && faults[idx] != WriteFails) && ReadPayload(data, ptr).Success?
    ensures idx in faults ==> ExtractFrom(data, es, idx, ptr, faults) == ExtractFrom(data, es, idx + 1, ptr + 4, faults)
    ensures idx !in faults ==>
      ExtractFrom(data, es, idx, ptr, faults)
        == PrependRun([Written(es[idx].path, ReadPayload(data, ptr).value.0)],
                      ExtractFrom(data, es, idx + 1, ReadPayload(data, ptr).value.1, faults))
  {
  }

  // The smallest archive showing the drift: entries `a` and `b` (both Box)
  // with payloads [1] and [2].
  const TWO_FILES: seq<byte> := [2, 0, 0, 0, 1, 0x61, 0, 1, 0x62, 0, 1, 0, 0, 0, 1, 1, 0, 0, 0, 2]

  /** The records of `TWO_FILES` read as two Box entries `a` and `b`, with
      the payloads [1] and [2]. */
  lemma TwoFilesRecords()
    ensures EntryCount(TWO_FILES) == Success(2)
    ensures ReadMeta(TWO_FILES, 4) == Success((Entry([0x61], Box), 7))
    ensures ReadMeta(TWO_FILES, 7) == Success((Entry([0x62], Box), 10))
    ensures ReadPayload(TWO_FILES, 10) == Success(([1], 15))
    ensures ReadPayload(TWO_FILES, 15) == Success(([2], 20))
  {
    assert TWO_FILES[..4] == [2, 0, 0, 0];
    assert TWO_FILES[5..6] == [0x61];
    assert TWO_FILES[8] == 0x62 && TWO_FILES[8..9] == [0x62];
    AsciiIsValidUtf8([0x61]);
    AsciiIsValidUtf8([0x62]);
    assert TWO_FILES[10..14] == [1, 0, 0, 0];
    assert TWO_FILES[14..15] == [1];
    assert TWO_FILES[15..19] == [1, 0, 0, 0];
    assert TWO_FILES[19..20] == [2];
  }

  /** When the file for `a` cannot be created, `unzip` as written gives `b`
      the payload of `a`; the corrected loop gives `b` its own. */
  lemma SkipMisalignsNextPayload()
    ensures DecodeArchive(TWO_FILES) == Success(Archive([Entry([0x61], Box), Entry([0x62], Box)], [[1], [2]]))
    ensures UnzipSpec(TWO_FILES, map[0 := OpenFails]) == UnzipRun([Written([0x62], [1])], None)
    ensures UnzipFixed(TWO_FILES, map[0 := OpenFails]) == UnzipRun([Written([0x62], [2])], None)
  {
    TwoFilesRecords();
    var es := [Entry([0x61], Box), Entry([0x62], Box)];
    assert [Entry([0x62], Box)] + [] == [Entry([0x62], Box)];
    assert [Entry([0x61], Box)] + [Entry([0x62], Box)] == es;
    assert ParseMetas(TWO_FILES, 7, 1) == Success(([Entry([0x62], Box)], 10));
    assert ParseMetas(TWO_FILES, 4, 2) == Success((es, 10));
    assert [[2]] + [] == [[2]] && [[1]] + [[2]] == [[1], [2]];
    assert ParsePayloads(TWO_FILES, 15, 1) == Success(([[2]], 20));
    assert ParsePayloads(TWO_FILES, 10, 2) == Success(([[1], [2]], 20));
    var faults := map[0 := OpenFails];
    assert ExtractFrom(TWO_FILES, es, 0, 10, faults) == ExtractFrom(TWO_FILES, es, 1, 10, faults);
    assert ExtractFrom(TWO_FILES, es, 2, 15, faults) == UnzipRun([], None);
    assert ExtractFixed(TWO_FILES, es, 2, 20, faults) == UnzipRun([], None);
  }

  /** Read from inside the first payload record of `TWO_FILES`, a size is
      257 and runs past the end of the buffer. */
  lemma MisreadSize()
    ensures ReadPayload(TWO_FILES, 14) == Failure(TruncatedPayload)
  {
    assert TWO_FILES[14..18] == [1, 1, 0, 0];
    assert ReadLeI32([1, 1, 0, 0]) == 257;
  }

  /** A failed write passes only the 4-byte size, so the next entry reads
      its size from the first payload's size and bytes (`[1, 1, 0, 0]`, that
      is 257) and the run stops on a truncated payload, where the corrected
      loop writes `b` with its own payload. */
  lemma WriteFailureMisreadsSize()
    ensures UnzipSpec(TWO_FILES, map[0 := WriteFails]) == UnzipRun([], Some(TruncatedPayload))
    ensures UnzipFixed(TWO_FILES, map[0 := WriteFails]) == UnzipRun([Written([0x62], [2])], None)
  {
    TwoFilesRecords();
    var es := [Entry([0x61], Box), Entry([0x62], Box)];
    assert [Entry([0x62], Box)] + [] == [Entry([0x62], Box)];
    assert [Entry([0x61], Box)] + [Entry([0x62], Box)] == es;
    assert ParseMetas(TWO_FILES, 7, 1) == Success(([Entry([0x62], Box)], 10));
    assert ParseMetas(TWO_FILES, 4, 2) == Success((es, 10));
    var faults := map[0 := WriteFails];
    MisreadSize();
    assert ExtractFrom(TWO_FILES, es, 1, 14, faults) == UnzipRun([], Some(TruncatedPayload));
    assert ExtractFrom(TWO_FILES, es, 0, 10, faults) == ExtractFrom(TWO_FILES, es, 1, 14, faults);
    assert ExtractFixed(TWO_FILES, es, 2, 20, faults) == UnzipRun([], None);
    assert ExtractFixed(TWO_FILES, es, 1, 15, faults) == UnzipRun([Written([0x62], [2])], None);
    assert ExtractFixed(TWO_FILES, es, 0, 10, faults) == ExtractFixed(TWO_FILES, es, 1, 15, faults);
  }
}
