/** The whole `zip` / `list` / `unzip` cycle: what the readers make of the
    bytes the writer lays out, when the walk's files go in and when a path
    is too long for its length byte. */
module RoundTrip {
  import opened Wire
  import opened FileTypes
  import opened Classifier
  import opened Walker
  import opened Layout
  import opened Encoder
  import opened Decoder

  /** What the readers need of an archive's contents to get them back: as
      many payloads as entries, a count and payload lengths that fit an i32,
      and paths that fit the length byte and are UTF-8. */
  predicate Decodable(es: seq<Entry>, ps: seq<seq<byte>>)
  {
    && |es| == |ps|
    && |es| < TWO_31
    && PathsFit(es)
    && PayloadsFit(ps)
  }

  lemma SliceOfSlice(data: seq<byte>, lo: nat, hi: nat, i: nat, j: nat)
    requires lo <= hi <= |data| && i <= j <= hi - lo
    ensures data[lo..hi][i..j] == data[lo + i..lo + j]
  {
    var a := data[lo..hi][i..j];
    var b := data[lo + i..lo + j];
    assert forall k :: 0 <= k < j - i ==> a[k] == b[k];
  }

  /** Every payload's length fits an i32. */
  predicate PayloadsFit(ps: seq<seq<byte>>)
  {
    forall i :: 0 <= i < |ps| ==> |ps[i]| < TWO_31
  }

  /** Every path fits the length byte and is UTF-8. */
  predicate PathsFit(es: seq<Entry>)
  {
    forall i :: 0 <= i < |es| ==> |es[i].path| <= 255 && ValidUtf8(es[i].path)
  }

  lemma PathsFitTail(es: seq<Entry>)
    requires es != [] && PathsFit(es)
    ensures |es[0].path| <= 255 && ValidUtf8(es[0].path) && PathsFit(es[1..])
  {
    forall i | 0 <= i < |es| - 1 ensures |es[1..][i].path| <= 255 && ValidUtf8(es[1..][i].path) {
      assert es[1..][i] == es[i + 1];
    }
  }

  /** A metadata record written for a fitting UTF-8 path reads back as the
      same entry, and the pointer lands just past it. */
  lemma ReadMetaOfRecord(data: seq<byte>, pos: nat, e: Entry)
    requires pos + 2 + |e.path| <= |data|
    requires data[pos..pos + 2 + |e.path|] == MetaRecord(e)
    requires |e.path| <= 255 && ValidUtf8(e.path)
    ensures ReadMeta(data, pos) == Success((e, pos + 2 + |e.path|))
  {
    var len := |e.path|;
    var rec := data[pos..pos + 2 + len];
    assert rec[1..1 + len] == e.path;
    assert data[pos] == rec[0] == len;
    SliceOfSlice(data, pos, pos + 2 + len, 1, 1 + len);
    assert data[pos + 1 + len] == rec[1 + len] == ToByte(e.fileType);
    FromToByte(e.fileType);
  }

  /** A payload record of a length that fits an i32 reads back as the same
      bytes, and the pointer lands just past them. */
  lemma ReadPayloadOfRecord(data: seq<byte>, pos: nat, p: seq<byte>)
    requires pos + 4 + |p| <= |data|
    requires data[pos..pos + 4 + |p|] == PayloadRecord(p)
    requires |p| < TWO_31
    ensures ReadPayload(data, pos) == Success((p, pos + 4 + |p|))
  {
    SliceOfSlice(data, pos, pos + 4 + |p|, 0, 4);
    assert data[pos..pos + 4] == PayloadRecord(p)[..4] == LeI32(|p|);
    ReadLeI32OfLeI32(|p|);
    SliceOfSlice(data, pos, pos + 4 + |p|, 4, 4 + |p|);
    assert data[pos + 4..pos + 4 + |p|] == PayloadRecord(p)[4..] == p;
  }

  /** Reading one record at a time from `pos` yields the entries `es`, each
      read ending where the next starts. */
  predicate ReadsAt(data: seq<byte>, pos: nat, es: seq<Entry>)
    decreases |es|
  {
    es == [] ||
    (&& ReadMeta(data, pos) == Success((es[0], pos + 2 + |es[0].path|))
     && ReadsAt(data, pos + 2 + |es[0].path|, es[1..]))
  }

  /** A metadata block of fitting UTF-8 paths is read record by record as
      its entries. */
  lemma {:induction false} BlockReads(data: seq<byte>, pos: nat, es: seq<Entry>)
    requires pos + MetaSize(es) <= |data|
    requires data[pos..pos + MetaSize(es)] == MetaBlock(es)
    requires PathsFit(es)
    ensures ReadsAt(data, pos, es)
    decreases |es|
  {
    if es != [] {
      var next := pos + 2 + |es[0].path|;
      assert ReadMeta(data, pos) == Success((es[0], next)) by {
        MetaBlockHead(data, pos, es);
        PathsFitTail(es);
        ReadMetaOfRecord(data, pos, es[0]);
      }
      assert ReadsAt(data, next, es[1..]) by {
        MetaBlockHead(data, pos, es);
        PathsFitTail(es);
        BlockReads(data, next, es[1..]);
      }
    }
  }

  /** Entries read one record at a time are what the metadata loop reads. */
  lemma {:induction false} ParseMetasOfReads(data: seq<byte>, pos: nat, es: seq<Entry>)
    requires ReadsAt(data, pos, es)
    ensures ParseMetas(data, pos, |es|) == Success((es, pos + MetaSize(es)))
    decreases |es|
  {
    if es != [] {
      var next := pos + 2 + |es[0].path|;
      ParseMetasOfReads(data, next, es[1..]);
      ParseMetasCons(data, pos, es[0], next, es[1..], next + MetaSize(es[1..]));
      assert [es[0]] + es[1..] == es;
    }
  }

  /** A metadata block reads back as its entries. */
  lemma ParseMetasOfBlock(data: seq<byte>, pos: nat, es: seq<Entry>)
    requires pos + MetaSize(es) <= |data|
    requires data[pos..pos + MetaSize(es)] == MetaBlock(es)
    requires PathsFit(es)
    ensures ParseMetas(data, pos, |es|) == Success((es, pos + MetaSize(es)))
  {
    BlockReads(data, pos, es);
    ParseMetasOfReads(data, pos, es);
  }

  lemma ParseMetasCons(data: seq<byte>, pos: nat, e: Entry, next: nat, rest: seq<Entry>, end: nat)
    requires ReadMeta(data, pos) == Success((e, next))
    requires ParseMetas(data, next, |rest|) == Success((rest, end))
    ensures ParseMetas(data, pos, |rest| + 1) == Success(([e] + rest, end))
  {
    ParseMetasStep(data, pos, |rest| + 1);
  }

  lemma ParsePayloadsCons(data: seq<byte>, pos: nat, p: seq<byte>, next: nat, rest: seq<seq<byte>>, end: nat)
    requires ReadPayload(data, pos) == Success((p, next))
    requires ParsePayloads(data, next, |rest|) == Success((rest, end))
    ensures ParsePayloads(data, pos, |rest| + 1) == Success(([p] + rest, end))
  {
  }

  /** A metadata block starts with the first entry's record, followed by
      the block of the others. */
  lemma MetaBlockHead(data: seq<byte>, pos: nat, es: seq<Entry>)
    requires es != [] && pos + MetaSize(es) <= |data|
    requires data[pos..pos + MetaSize(es)] == MetaBlock(es)
    ensures pos + 2 + |es[0].path| + MetaSize(es[1..]) == pos + MetaSize(es)
    ensures data[pos..pos + 2 + |es[0].path|] == MetaRecord(es[0])
    ensures data[pos + 2 + |es[0].path|..pos + MetaSize(es)] == MetaBlock(es[1..])
  {
    var r := 2 + |es[0].path|;
    var end := pos + MetaSize(es);
    var x := MetaRecord(es[0]);
    var y := MetaBlock(es[1..]);
    assert data[pos..end] == x + y;
    assert (x + y)[..r] == x && (x + y)[r..] == y;
    SliceOfSlice(data, pos, end, 0, r);
    SliceOfSlice(data, pos, end, r, end - pos);
  }

  /** A payload block starts with the first payload's record, followed by
      the block of the others. */
  lemma PayloadBlockHead(data: seq<byte>, pos: nat, ps: seq<seq<byte>>)
    requires ps != [] && pos + PayloadSize(ps) <= |data|
    requires data[pos..pos + PayloadSize(ps)] == PayloadBlock(ps)
    ensures pos + 4 + |ps[0]| + PayloadSize(ps[1..]) == pos + PayloadSize(ps)
    ensures data[pos..pos + 4 + |ps[0]|] == PayloadRecord(ps[0])
    ensures data[pos + 4 + |ps[0]|..pos + PayloadSize(ps)] == PayloadBlock(ps[1..])
  {
    var r := 4 + |ps[0]|;
    var end := pos + PayloadSize(ps);
    var x := PayloadRecord(ps[0]);
    var y := PayloadBlock(ps[1..]);
    assert data[pos..end] == x + y;
    assert (x + y)[..r] == x && (x + y)[r..] == y;
    SliceOfSlice(data, pos, end, 0, r);
    SliceOfSlice(data, pos, end, r, end - pos);
  }

  /** A payload block reads back as its payloads. */
  lemma {:induction false} ParsePayloadsOfBlock(data: seq<byte>, pos: nat, ps: seq<seq<byte>>)
    requires pos + PayloadSize(ps) <= |data|
    requires data[pos..pos + PayloadSize(ps)] == PayloadBlock(ps)
    requires PayloadsFit(ps)
    ensures ParsePayloads(data, pos, |ps|) == Success((ps, pos + PayloadSize(ps)))
    decreases |ps|
  {
    if ps != [] {
      var r := 4 + |ps[0]|;
      PayloadBlockHead(data, pos, ps);
      ReadPayloadOfRecord(data, pos, ps[0]);
      PayloadsFitTail(ps);
      ParsePayloadsOfBlock(data, pos + r, ps[1..]);
      var end := pos + r + PayloadSize(ps[1..]);
      ParsePayloadsCons(data, pos, ps[0], pos + r, ps[1..], end);
      assert [ps[0]] + ps[1..] == ps;
      assert end == pos + PayloadSize(ps);
    }
  }

  lemma PayloadsFitTail(ps: seq<seq<byte>>)
    requires ps != [] && PayloadsFit(ps)
    ensures |ps[0]| < TWO_31 && PayloadsFit(ps[1..])
  {
    forall i | 0 <= i < |ps| - 1 ensures |ps[1..][i]| < TWO_31 {
      assert ps[1..][i] == ps[i + 1];
    }
  }

  /** Reading back what was written: `unzip`'s reader recovers every entry
      and payload of the archive, `list` lists exactly its entries, and the
      corrected `unzip` writes every entry that does not fail with its own
      payload. */
  lemma DecodeEncode(es: seq<Entry>, ps: seq<seq<byte>>, faults: map<nat, Fault>)
    requires Decodable(es, ps)
    ensures DecodeArchive(Encode(es, ps)) == Success(Archive(es, ps))
    ensures DecodeList(Encode(es, ps)) == Success(es)
    ensures UnzipFixed(Encode(es, ps), faults) == UnzipRun(Kept(es, ps, faults, 0), None)
  {
    EncodedParts(es, ps);
    ListAgreesWithUnzip(Encode(es, ps));
    UnzipFixedWritesOwnPayloads(Encode(es, ps), faults);
  }

  /** The three parts of an encoding read back one by one. */
  lemma EncodedParts(es: seq<Entry>, ps: seq<seq<byte>>)
    requires Decodable(es, ps)
    ensures EntryCount(Encode(es, ps)) == Success(|es|)
    ensures ParseMetas(Encode(es, ps), 4, |es|) == Success((es, 4 + MetaSize(es)))
    ensures ParsePayloads(Encode(es, ps), 4 + MetaSize(es), |es|).Success?
    ensures ParsePayloads(Encode(es, ps), 4 + MetaSize(es), |es|).value.0 == ps
  {
    EncodedHeader(es, ps);
    ParseMetasOfBlock(Encode(es, ps), 4, es);
    EncodedPayloads(es, ps);
  }

  lemma EncodedHeader(es: seq<Entry>, ps: seq<seq<byte>>)
    requires |es| == |ps| && |es| < TWO_31
    ensures EntryCount(Encode(es, ps)) == Success(|es|)
  {
    ReadLeI32OfLeI32(|es|);
  }

  lemma EncodedPayloads(es: seq<Entry>, ps: seq<seq<byte>>)
    requires |es| == |ps| && PayloadsFit(ps)
    ensures ParsePayloads(Encode(es, ps), 4 + MetaSize(es), |ps|) == Success((ps, |Encode(es, ps)|))
  {
    var data := Encode(es, ps);
    var next := 4 + MetaSize(es);
    assert data[next..next + PayloadSize(ps)] == data[next..];
    ParsePayloadsOfBlock(data, next, ps);
  }

  /** The checked encoder's output always reads back, given UTF-8 paths. */
  lemma EncodeCheckedRoundTrip(es: seq<Entry>, ps: seq<seq<byte>>)
    requires |es| == |ps| && EncodeChecked(es, ps).Success?
    requires forall i :: 0 <= i < |es| ==> ValidUtf8(es[i].path)
    ensures DecodeArchive(EncodeChecked(es, ps).value) == Success(Archive(es, ps))
    ensures DecodeList(EncodeChecked(es, ps).value) == Success(es)
  {
    DecodeEncode(es, ps, map[]);
  }

  // A 256-byte path of `a`s: its length byte is written as 0.
  const LONG_PATH: seq<byte> := seq(256, _ => 0x61)

  /** As written, `write_raw_data` truncates the length of a 256-byte path
      to 0: the reader then lists an empty path whose type byte is the
      path's first `a` (Unknown), and cannot find the payloads. The checked
      encoder refuses the path instead. */
  lemma LongPathBreaksRoundTrip()
    ensures DecodeList(Encode([Entry(LONG_PATH, Box)], [[]])) == Success([Entry([], Unknown)])
    ensures DecodeArchive(Encode([Entry(LONG_PATH, Box)], [[]])).Failure?
    ensures EncodeChecked([Entry(LONG_PATH, Box)], [[]]) == Failure(PathTooLong)
  {
    var es := [Entry(LONG_PATH, Box)];
    var data := Encode(es, [[]]);
    ReadLeI32OfLeI32(1);
    assert EntryCount(data) == Success(1);
    assert data[4..4 + MetaSize(es)] == MetaBlock(es) == MetaRecord(es[0]);
    assert data[4] == 0 && data[5] == 0x61;
    assert data[5..5] == [];
    assert ValidUtf8([]);
    assert ReadMeta(data, 4) == Success((Entry([], Unknown), 6));
    assert ParseMetas(data, 6, 0) == Success(([], 6));
    assert [Entry([], Unknown)] + [] == [Entry([], Unknown)];
    assert data[6..10] == [0x61, 0x61, 0x61, 0x61];
    assert ReadPayload(data, 6).Failure?;
    assert |es[0].path| > 255;
  }

  /** Every file the walk found with a recognised type has UTF-8 names all
      the way down: the walk fails otherwise. */
  predicate KnownPathsUtf8(fs: seq<Found>)
  {
    forall i :: 0 <= i < |fs| && fs[i].meta.fileType != Unknown ==> AllUtf8(fs[i].meta.path)
  }

  lemma {:induction false} VisitKnownUtf8(node: Node, prefix: seq<Name>)
    requires Visit(node, prefix).Some?
    ensures KnownPathsUtf8(Visit(node, prefix).value)
    decreases node, 1
  {
    match node
    case Unreadable(_) =>
    case File(name, content) =>
      if Classify(name) != Unknown {
        assert AllUtf8(prefix + [name]) by {
          forall i | 0 <= i < |prefix| + 1 ensures ValidUtf8((prefix + [name])[i]) {
            if i < |prefix| { assert (prefix + [name])[i] == prefix[i]; }
          }
        }
      }
    case Dir(name, kids) => DiscoverKnownUtf8(kids, prefix + [name]);
  }

  lemma {:induction false} DiscoverKnownUtf8(children: seq<Node>, prefix: seq<Name>)
    requires Discover(children, prefix).Some?
    ensures KnownPathsUtf8(Discover(children, prefix).value)
    decreases children, 0
  {
    if children != [] {
      VisitKnownUtf8(children[0], prefix);
      DiscoverKnownUtf8(children[1..], prefix);
      var a := Visit(children[0], prefix).value;
      var b := Discover(children[1..], prefix).value;
      var fs := Discover(children, prefix).value;
      assert fs == a + b;
      forall i | 0 <= i < |fs| && fs[i].meta.fileType != Unknown
        ensures AllUtf8(fs[i].meta.path)
      {
        if i < |a| {
          assert fs[i] == a[i];
        } else {
          assert fs[i] == b[i - |a|];
        }
      }
    }
  }

  /** What reading each found file gives, in order. */
  function Loads(fs: seq<Found>): (r: seq<Option<seq<byte>>>)
    ensures |r| == |fs| && forall i :: 0 <= i < |fs| ==> r[i] == fs[i].content
  {
    seq(|fs|, i requires 0 <= i < |fs| => fs[i].content)
  }

  /** The entries `zip` writes for what the walk found: textures first,
      then the other recognised files, each in discovery order. */
  function PackedEntries(fs: seq<Found>): seq<Entry>
  {
    Entries(Metas(Textures(fs))) + Entries(Metas(Others(fs)))
  }

  /** Every file `zip` writes could be opened and read. */
  predicate AllLoaded(fs: seq<Found>)
  {
    AllRead(Loads(Textures(fs))) && AllRead(Loads(Others(fs)))
  }

  /** The payloads `zip` writes, in the order of `PackedEntries`. */
  function PackedPayloads(fs: seq<Found>): (r: seq<seq<byte>>)
    requires AllLoaded(fs)
    ensures |r| == |PackedEntries(fs)|
  {
    Payloads(Loads(Textures(fs))) + Payloads(Loads(Others(fs)))
  }

  /** The walk's output fits the format's length fields: every path fits
      its length byte, and the count and every payload size fit an i32. */
  predicate FitsFormat(fs: seq<Found>)
    requires AllLoaded(fs)
  {
    && !SomePathTooLong(PackedEntries(fs))
    && |PackedEntries(fs)| < TWO_31
    && !SomePayloadTooLarge(PackedPayloads(fs))
  }

  /** `zip` of the directory `root` as written, before compression:
      `get_file_list`, then `write_raw_data` on its two lists. A failed walk
      and an unreadable asset abort it; a path longer than 255 bytes does
      not, and is written with its length truncated. */
  function Pack(root: Node): (r: Result<seq<byte>>)
    ensures Walk(root, []).None? ==> r == Failure(WalkFailed)
    ensures Walk(root, []).Some? && !AllLoaded(Walk(root, []).value) ==> r == Failure(ReadFailed)
    ensures r.Success? <==> Walk(root, []).Some? && AllLoaded(Walk(root, []).value)
    ensures r.Success? ==>
      r.value == Encode(PackedEntries(Walk(root, []).value), PackedPayloads(Walk(root, []).value))
  {
    match Walk(root, [])
    case None => Failure(WalkFailed)
    case Some(fs) =>
      if AllLoaded(fs) then Success(Encode(PackedEntries(fs), PackedPayloads(fs)))
      else Failure(ReadFailed)
  }

  /** `zip` with the corrected encoder: it refuses what does not fit the
      format instead of writing it truncated. */
  function PackChecked(root: Node): (r: Result<seq<byte>>)
    ensures Pack(root).Failure? ==> r == Pack(root)
    ensures r.Success? ==> r == Pack(root)
  {
    match Walk(root, [])
    case None => Failure(WalkFailed)
    case Some(fs) =>
      if AllLoaded(fs) then EncodeChecked(PackedEntries(fs), PackedPayloads(fs))
      else Failure(ReadFailed)
  }

  /** The corrected `zip` differs from `zip` as written only by refusing
      archives that do not fit the format, a too-long path among them. */
  lemma PackCheckedRefusesOnlyMisfits(root: Node)
    ensures Pack(root).Failure? ==> PackChecked(root) == Pack(root)
    ensures PackChecked(root).Success? <==> Pack(root).Success? && FitsFormat(Walk(root, []).value)
    ensures PackChecked(root).Success? ==> PackChecked(root) == Pack(root)
    ensures Pack(root).Success? && SomePathTooLong(PackedEntries(Walk(root, []).value)) ==>
      PackChecked(root) == Failure(PathTooLong)
  {
    if Walk(root, []).Some? && AllLoaded(Walk(root, []).value) {
      var fs := Walk(root, []).value;
      assert |PackedEntries(fs)| == |PackedPayloads(fs)|;
    }
  }

  /** The order `zip` writes: the textures, then the other recognised
      files. Every texture entry comes before every other entry, none is
      Unknown, and there is one entry per texture and per other file. */
  lemma TexturesFirst(fs: seq<Found>)
    ensures |PackedEntries(fs)| == |Textures(fs)| + |Others(fs)|
    ensures forall i :: 0 <= i < |Textures(fs)| ==> PackedEntries(fs)[i].fileType == Texture
    ensures forall i :: |Textures(fs)| <= i < |PackedEntries(fs)| ==>
      PackedEntries(fs)[i].fileType != Texture && PackedEntries(fs)[i].fileType != Unknown
    ensures forall i, j ::
              0 <= i < |PackedEntries(fs)| && 0 <= j < |PackedEntries(fs)| &&
              PackedEntries(fs)[i].fileType == Texture && PackedEntries(fs)[j].fileType != Texture
              ==> i < j
  {
    SelectMembers(fs, IsTexture);
    SelectMembers(fs, IsOther);
    var ts := Textures(fs);
    var os := Others(fs);
    forall i | 0 <= i < |PackedEntries(fs)|
      ensures i < |ts| ==> PackedEntries(fs)[i].fileType == Texture
      ensures i >= |ts| ==> PackedEntries(fs)[i].fileType != Texture && PackedEntries(fs)[i].fileType != Unknown
    {
      if i < |ts| {
        assert ts[i] in ts;
        assert PackedEntries(fs)[i] == ToEntry(ts[i].meta);
      } else {
        assert os[i - |ts|] in os;
        assert PackedEntries(fs)[i] == ToEntry(os[i - |ts|].meta);
      }
    }
  }

  /** The entries packed from the walk's files carry UTF-8 paths and never
      the Unknown type. */
  lemma PackedEntriesKnown(fs: seq<Found>)
    requires KnownPathsUtf8(fs)
    ensures forall i :: 0 <= i < |PackedEntries(fs)| ==>
      ValidUtf8(PackedEntries(fs)[i].path) && PackedEntries(fs)[i].fileType != Unknown
  {
    SelectMembers(fs, IsTexture);
    SelectMembers(fs, IsOther);
    var ts := Textures(fs);
    var os := Others(fs);
    forall i | 0 <= i < |PackedEntries(fs)|
      ensures ValidUtf8(PackedEntries(fs)[i].path) && PackedEntries(fs)[i].fileType != Unknown
    {
      var f := if i < |ts| then ts[i] else os[i - |ts|];
      assert f in ts || f in os;
      assert PackedEntries(fs)[i] == ToEntry(f.meta);
      var j :| 0 <= j < |fs| && fs[j] == f;
      ArchivePathUtf8(f.meta.path);
    }
  }

  /** Packing then unpacking: whenever `zip` succeeds on files that fit
      the format, the reader recovers the textures and then the other
      recognised files, each with the bytes read from it, none of them
      Unknown; `list` lists them; and the corrected `unzip` writes every one
      that does not fail with its own bytes. */
  lemma PackUnpack(root: Node, faults: map<nat, Fault>)
    requires Pack(root).Success? && FitsFormat(Walk(root, []).value)
    ensures var fs := Walk(root, []).value;
      DecodeArchive(Pack(root).value) == Success(Archive(PackedEntries(fs), PackedPayloads(fs)))
    ensures var fs := Walk(root, []).value;
      DecodeList(Pack(root).value) == Success(PackedEntries(fs))
    ensures var fs := Walk(root, []).value;
      forall i :: 0 <= i < |PackedEntries(fs)| ==> PackedEntries(fs)[i].fileType != Unknown
    ensures var fs := Walk(root, []).value;
      UnzipFixed(Pack(root).value, faults) == UnzipRun(Kept(PackedEntries(fs), PackedPayloads(fs), faults, 0), None)
  {
    var fs := Walk(root, []).value;
    assert root.Dir?;
    DiscoverKnownUtf8(root.children, []);
    PackedEntriesKnown(fs);
    DecodeEncode(PackedEntries(fs), PackedPayloads(fs), faults);
  }
}
