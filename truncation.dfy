/** What the readers make of an archive cut short: the error names the part
    of the layout the cut falls in, and `list`, which reads no payloads,
    still lists an archive cut inside its payloads. */
module Truncation {
  import opened Wire
  import opened Layout
  import opened Decoder
  import opened RoundTrip

  /** A metadata record lying wholly inside the first `k` bytes reads the
      same from them. */
  lemma ReadMetaPrefix(data: seq<byte>, pos: nat, k: nat)
    requires k <= |data| && ReadMeta(data, pos).Success? && ReadMeta(data, pos).value.1 <= k
    ensures ReadMeta(data[..k], pos) == ReadMeta(data, pos)
  {
    var next := ReadMeta(data, pos).value.1;
    SliceOfSlice(data, 0, k, pos + 1, next - 1);
    assert data[..k] == data[0..k];
  }

  /** A metadata record running past the first `k` bytes cannot be read
      from them: its path is UTF-8, so the cut is what stops it. */
  lemma ReadMetaCut(data: seq<byte>, pos: nat, k: nat)
    requires k <= |data| && pos <= k && ReadMeta(data, pos).Success? && ReadMeta(data, pos).value.1 > k
    ensures ReadMeta(data[..k], pos) == Failure(TruncatedMetadata)
  {
    var next := ReadMeta(data, pos).value.1;
    if pos < k && pos + 1 + data[pos] <= k {
      SliceOfSlice(data, 0, k, pos + 1, next - 1);
      assert data[..k] == data[0..k];
    }
  }

  /** A payload record lying wholly inside the first `k` bytes reads the
      same from them. */
  lemma ReadPayloadPrefix(data: seq<byte>, pos: nat, k: nat)
    requires k <= |data| && ReadPayload(data, pos).Success? && ReadPayload(data, pos).value.1 <= k
    ensures ReadPayload(data[..k], pos) == ReadPayload(data, pos)
  {
    var next := ReadPayload(data, pos).value.1;
    SliceOfSlice(data, 0, k, pos, pos + 4);
    SliceOfSlice(data, 0, k, pos + 4, next);
    assert data[..k] == data[0..k];
  }

  /** A payload record running past the first `k` bytes cannot be read
      from them. */
  lemma ReadPayloadCut(data: seq<byte>, pos: nat, k: nat)
    requires k <= |data| && pos <= k && ReadPayload(data, pos).Success? && ReadPayload(data, pos).value.1 > k
    ensures ReadPayload(data[..k], pos) == Failure(TruncatedPayload)
  {
    if pos + 4 <= k {
      SliceOfSlice(data, 0, k, pos, pos + 4);
      assert data[..k] == data[0..k];
    }
  }

  /** Metadata records that run past a cut fail to parse from it. */
  lemma {:induction false} ParseMetasCut(data: seq<byte>, pos: nat, n: nat, k: nat)
    requires k <= |data| && pos <= k
    requires ParseMetas(data, pos, n).Success? && k < ParseMetas(data, pos, n).value.1
    ensures ParseMetas(data[..k], pos, n) == Failure(TruncatedMetadata)
    decreases n
  {
    if n == 0 {
      assert false;
    } else {
      var next := ReadMeta(data, pos).value.1;
      if next <= k {
        ReadMetaPrefix(data, pos, k);
        ParseMetasCut(data, next, n - 1, k);
      } else {
        ReadMetaCut(data, pos, k);
      }
    }
  }

  /** Payload records that run past a cut fail to parse from it. */
  lemma {:induction false} ParsePayloadsCut(data: seq<byte>, pos: nat, n: nat, k: nat)
    requires k <= |data| && pos <= k
    requires ParsePayloads(data, pos, n).Success? && k < ParsePayloads(data, pos, n).value.1
    ensures ParsePayloads(data[..k], pos, n) == Failure(TruncatedPayload)
    decreases n
  {
    if n == 0 {
      assert false;
    } else {
      var next := ReadPayload(data, pos).value.1;
      if next <= k {
        ReadPayloadPrefix(data, pos, k);
        ParsePayloadsCut(data, next, n - 1, k);
      } else {
        ReadPayloadCut(data, pos, k);
      }
    }
  }

  /** The header of a cut archive reads as the whole one's when four bytes
      are left. */
  lemma CutHeader(es: seq<Entry>, ps: seq<seq<byte>>, k: nat)
    requires |es| == |ps| && |es| < TWO_31 && 4 <= k <= |Encode(es, ps)|
    ensures EntryCount(Encode(es, ps)[..k]) == Success(|es|)
  {
    var data := Encode(es, ps);
    EncodedHeader(es, ps);
    SliceOfSlice(data, 0, k, 0, 4);
    assert data[..k] == data[0..k];
    assert data[..k][..4] == data[..k][0..4];
    assert data[..4] == data[0..4];
  }

  /** Cutting a well-formed archive short anywhere makes it undecodable,
      with the error naming where the cut falls: in the count, in the
      metadata, or in the payloads. A cut inside the payloads still lists. */
  lemma TruncatedArchive(es: seq<Entry>, ps: seq<seq<byte>>, k: nat)
    requires Decodable(es, ps) && k < |Encode(es, ps)|
    ensures k < 4 ==> DecodeArchive(Encode(es, ps)[..k]) == Failure(TruncatedHeader)
    ensures 4 <= k < 4 + MetaSize(es) ==> DecodeArchive(Encode(es, ps)[..k]) == Failure(TruncatedMetadata)
    ensures 4 <= k < 4 + MetaSize(es) ==> DecodeList(Encode(es, ps)[..k]) == Failure(TruncatedMetadata)
    ensures 4 + MetaSize(es) <= k ==> DecodeArchive(Encode(es, ps)[..k]) == Failure(TruncatedPayload)
    ensures 4 + MetaSize(es) <= k ==> DecodeList(Encode(es, ps)[..k]) == Success(es)
  {
    var data := Encode(es, ps);
    var cut := data[..k];
    if 4 <= k {
      CutHeader(es, ps, k);
      EncodedParts(es, ps);
      if k < 4 + MetaSize(es) {
        ParseMetasCut(data, 4, |es|, k);
      } else {
        SliceOfSlice(data, 0, k, 4, 4 + MetaSize(es));
        assert data[..k] == data[0..k];
        ParseMetasOfBlock(cut, 4, es);
        EncodedPayloads(es, ps);
        ParsePayloadsCut(data, 4 + MetaSize(es), |es|, k);
      }
    }
  }
}
