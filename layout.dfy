/** The byte layout of a raw (uncompressed) PRAE archive, as `write_raw_data`
    lays it out:

      [i32 LE entry count]
      per entry:  [u8 path length][path bytes][u8 type code]
      per entry:  [i32 LE payload length][payload bytes]

    The functions here are the specification both the encoder and the
    decoder are proved against. The path length is written with Rust's
    truncating `as u8`, and lengths and the count with a wrapping `as i32`. */
module Layout {
  import opened Wire
  import opened FileTypes

  /** One entry's metadata as the archive carries it: the archive path
      (`/`-separated, relative to the archived directory) and its type. */
  datatype Entry = Entry(path: seq<byte>, fileType: FileType)

  /** The entries of an archive and, position by position, their payloads. */
  datatype Archive = Archive(entries: seq<Entry>, payloads: seq<seq<byte>>)

  /** `[len as u8][path][type code]`. */
  function MetaRecord(e: Entry): (r: seq<byte>)
    ensures |r| == 2 + |e.path|
  {
    [|e.path| % 256] + e.path + [ToByte(e.fileType)]
  }

  /** `[len as i32 LE][payload]`. */
  function PayloadRecord(p: seq<byte>): (r: seq<byte>)
    ensures |r| == 4 + |p|
  {
    LeI32(|p|) + p
  }

  /** Σ (2 + pathLen) over the entries. */
  function MetaSize(es: seq<Entry>): nat
  {
    if es == [] then 0 else 2 + |es[0].path| + MetaSize(es[1..])
  }

  /** Σ (4 + payloadLen) over the payloads. */
  function PayloadSize(ps: seq<seq<byte>>): nat
  {
    if ps == [] then 0 else 4 + |ps[0]| + PayloadSize(ps[1..])
  }

  /** The metadata block: the records of all entries, in order. */
  function MetaBlock(es: seq<Entry>): (r: seq<byte>)
    ensures |r| == MetaSize(es)
  {
    if es == [] then [] else MetaRecord(es[0]) + MetaBlock(es[1..])
  }

  /** The payload block: the records of all payloads, in order. */
  function PayloadBlock(ps: seq<seq<byte>>): (r: seq<byte>)
    ensures |r| == PayloadSize(ps)
  {
    if ps == [] then [] else PayloadRecord(ps[0]) + PayloadBlock(ps[1..])
  }

  /** The raw archive of `es` with payloads `ps`: count, metadata block,
      payload block. Its length is 4 + Σ(2 + pathLen) + Σ(4 + payloadLen),
      its first four bytes are the count, and the metadata block ends where
      the payload block starts. */
  function Encode(es: seq<Entry>, ps: seq<seq<byte>>): (r: seq<byte>)
    requires |es| == |ps|
    ensures |r| == 4 + MetaSize(es) + PayloadSize(ps)
    ensures r[..4] == LeI32(|es|)
    ensures r[4..4 + MetaSize(es)] == MetaBlock(es)
    ensures r[4 + MetaSize(es)..] == PayloadBlock(ps)
  {
    LeI32(|es|) + MetaBlock(es) + PayloadBlock(ps)
  }

  lemma {:induction false} MetaBlockAppend(a: seq<Entry>, b: seq<Entry>)
    ensures MetaBlock(a + b) == MetaBlock(a) + MetaBlock(b)
    decreases |a|
  {
    if a == [] {
      assert a + b == b;
    } else {
      assert (a + b)[0] == a[0] && (a + b)[1..] == a[1..] + b;
      MetaBlockAppend(a[1..], b);
    }
  }

  lemma {:induction false} PayloadBlockAppend(a: seq<seq<byte>>, b: seq<seq<byte>>)
    ensures PayloadBlock(a + b) == PayloadBlock(a) + PayloadBlock(b)
    decreases |a|
  {
    if a == [] {
      assert a + b == b;
    } else {
      assert (a + b)[0] == a[0] && (a + b)[1..] == a[1..] + b;
      PayloadBlockAppend(a[1..], b);
    }
  }

  lemma MetaBlockSnoc(es: seq<Entry>, e: Entry)
    ensures MetaBlock(es + [e]) == MetaBlock(es) + MetaRecord(e)
  {
    MetaBlockAppend(es, [e]);
    assert MetaBlock([e]) == MetaRecord(e) + MetaBlock([]);
  }

  lemma PayloadBlockSnoc(ps: seq<seq<byte>>, p: seq<byte>)
    ensures PayloadBlock(ps + [p]) == PayloadBlock(ps) + PayloadRecord(p)
  {
    PayloadBlockAppend(ps, [p]);
    assert PayloadBlock([p]) == PayloadRecord(p) + PayloadBlock([]);
  }

  /** The layout of an archive built from a texture list and a file list:
      the count of both, then the metadata of all textures, then of all
      files, then the payloads of all textures, then of all files. */
  lemma TexturesThenFiles(ts: seq<Entry>, fs: seq<Entry>, tps: seq<seq<byte>>, fps: seq<seq<byte>>)
    requires |ts| == |tps| && |fs| == |fps|
    ensures Encode(ts + fs, tps + fps)
         == LeI32(|ts| + |fs|) + MetaBlock(ts) + MetaBlock(fs) + PayloadBlock(tps) + PayloadBlock(fps)
  {
    MetaBlockAppend(ts, fs);
    PayloadBlockAppend(tps, fps);
  }
}
