/** Primitive wire-level vocabulary of the PRAE archive: bytes, the failure
    outcomes of building and reading an archive, 32-bit little-endian
    integers as Rust's `i32::to_le_bytes` / `i32::from_le_bytes` produce and
    consume them, and UTF-8 well-formedness as `String::from_utf8` checks it. */
module Wire {

  type byte = x: int | 0 <= x < 256

  const TWO_31: int := 0x8000_0000
  const TWO_32: int := 0x1_0000_0000

  /** Every way an operation of the archive tool can stop short. In the
      source most of these are panics (`unwrap`, an out-of-range slice) or an
      `io::Error` propagated with `?`; the model makes each an explicit value. */
  datatype Error =
    | TruncatedHeader     // fewer than 4 bytes where the entry count belongs
    | TruncatedMetadata   // a length byte, path or type byte past the end
    | InvalidPath         // path bytes that are not UTF-8
    | TruncatedPayload    // a size field or payload past the end, or a negative size
    | PathTooLong         // an archive path longer than a one-byte length can say
    | TooLarge            // an entry count or payload size that does not fit an i32
    | ReadFailed          // an asset file that could not be opened or read
    | WalkFailed          // a directory that could not be listed, or a non-UTF-8 name

  datatype Result<+T> = Success(value: T) | Failure(error: Error) {
    predicate IsFailure() { Failure? }
    function PropagateFailure<U>(): Result<U> requires Failure? { Failure(error) }
    function Extract(): T requires Success? { value }
  }

  datatype Option<+T> = None | Some(value: T)

  /** Two's-complement reinterpretation of `n` as an i32 (Rust's `as i32`
      on a wider integer, and wrapping `+` on i32). */
  function WrapI32(n: int): (r: int)
    ensures -TWO_31 <= r < TWO_31
    ensures (r - n) % TWO_32 == 0
    ensures -TWO_31 <= n < TWO_31 ==> r == n
  {
    var v := n % TWO_32;
    if v < TWO_31 then v else v - TWO_32
  }

  /** `i32::to_le_bytes(n as i32)`: the low 32 bits of `n`, least significant first. */
  function LeI32(n: int): (r: seq<byte>)
    ensures |r| == 4
  {
    var v := n % TWO_32;
    [v % 256, (v / 256) % 256, (v / 0x1_0000) % 256, v / 0x100_0000]
  }

  /** `i32::from_le_bytes`: four bytes, least significant first, read as a signed value. */
  function ReadLeI32(b: seq<byte>): (r: int)
    requires |b| == 4
    ensures -TWO_31 <= r < TWO_31
  {
    var v := b[0] as int + 256 * (b[1] as int) + 0x1_0000 * (b[2] as int) + 0x100_0000 * (b[3] as int);
    if v < TWO_31 then v else v - TWO_32
  }

  lemma UnsignedDigits(v: int)
    requires 0 <= v < TWO_32
    ensures v % 256 + 256 * ((v / 256) % 256) + 0x1_0000 * ((v / 0x1_0000) % 256)
            + 0x100_0000 * (v / 0x100_0000) == v
  {
    var q1 := v / 256;
    var q2 := q1 / 256;
    var q3 := q2 / 256;
    assert v == q1 * 256 + v % 256;
    assert q1 == q2 * 256 + q1 % 256;
    assert q2 == q3 * 256 + q2 % 256;
    assert v / 0x1_0000 == q2;
    assert v / 0x100_0000 == q3;
  }

  /** Reading back what `LeI32` wrote gives the value wrapped to an i32; so
      every value that already fits an i32 survives the round trip. */
  lemma {:induction false} ReadLeI32OfLeI32(n: int)
    ensures ReadLeI32(LeI32(n)) == WrapI32(n)
    ensures -TWO_31 <= n < TWO_31 ==> ReadLeI32(LeI32(n)) == n
  {
    UnsignedDigits(n % TWO_32);
  }

  /** A continuation byte of a multi-byte UTF-8 sequence: 10xxxxxx. */
  predicate IsCont(b: byte) { 0x80 <= b <= 0xBF }

  /** Length of the well-formed UTF-8 sequence that starts `s`, or 0 when
      `s` does not start with one (Table 3-7 of the Unicode Standard: no
      overlong forms, no surrogates, nothing above U+10FFFF). */
  function SeqLen(s: seq<byte>): (n: nat)
    requires |s| > 0
    ensures n <= 4 && (n > 0 ==> n <= |s|)
    ensures s[0] < 0x80 <==> n == 1
  {
    var b := s[0];
    if b < 0x80 then 1
    else if 0xC2 <= b <= 0xDF then
      if |s| >= 2 && IsCont(s[1]) then 2 else 0
    else if 0xE0 <= b <= 0xEF then
      var lo := if b == 0xE0 then 0xA0 else 0x80;
      var hi := if b == 0xED then 0x9F else 0xBF;
      if |s| >= 3 && lo <= s[1] <= hi && IsCont(s[2]) then 3 else 0
    else if 0xF0 <= b <= 0xF4 then
      var lo := if b == 0xF0 then 0x90 else 0x80;
      var hi := if b == 0xF4 then 0x8F else 0xBF;
      if |s| >= 4 && lo <= s[1] <= hi && IsCont(s[2]) && IsCont(s[3]) then 4 else 0
    else 0
  }

  /** `String::from_utf8(s)` succeeds exactly on these byte sequences. */
  predicate ValidUtf8(s: seq<byte>)
    decreases |s|
  {
    |s| == 0 || (SeqLen(s) > 0 && ValidUtf8(s[SeqLen(s)..]))
  }

  /** Which characters a sequence starts with depends only on its own bytes,
      so appending more bytes after a complete character does not change it. */
  lemma SeqLenPrefix(s: seq<byte>, t: seq<byte>)
    requires |s| > 0 && SeqLen(s) > 0
    ensures SeqLen(s + t) == SeqLen(s)
  {
  }

  /** Well-formed UTF-8 is closed under concatenation (a path joined from
      valid names is valid). */
  lemma {:induction false} ValidUtf8Concat(s: seq<byte>, t: seq<byte>)
    requires ValidUtf8(s) && ValidUtf8(t)
    ensures ValidUtf8(s + t)
    decreases |s|
  {
    if |s| == 0 {
      assert s + t == t;
    } else {
      var n := SeqLen(s);
      SeqLenPrefix(s, t);
      assert (s + t)[n..] == s[n..] + t;
      ValidUtf8Concat(s[n..], t);
    }
  }

  /** Bytes that never occur in well-formed UTF-8: 0xC0 and 0xC1 (overlong
      starts) and 0xF5 to 0xFF (beyond U+10FFFF). */
  lemma {:induction false} Utf8ExcludedBytes(s: seq<byte>)
    requires ValidUtf8(s)
    ensures forall i :: 0 <= i < |s| ==> s[i] != 0xC0 && s[i] != 0xC1 && s[i] < 0xF5
    decreases |s|
  {
    if |s| > 0 {
      var n := SeqLen(s);
      Utf8ExcludedBytes(s[n..]);
      forall i | 0 <= i < |s| ensures s[i] != 0xC0 && s[i] != 0xC1 && s[i] < 0xF5 {
        if i >= n {
          assert s[i] == s[n..][i - n];
        }
      }
    }
  }

  /** The edge rows of Table 3-7: the narrowed second-byte ranges after
      E0, ED, F0 and F4 (no overlong forms, no surrogates, nothing above
      U+10FFFF), the smallest two-byte lead, and a missing continuation. */
  lemma Utf8TableEdges()
    ensures !ValidUtf8([0xED, 0xA0, 0x80]) && ValidUtf8([0xED, 0x9F, 0xBF])
    ensures !ValidUtf8([0xE0, 0x9F, 0xBF]) && ValidUtf8([0xE0, 0xA0, 0x80])
    ensures !ValidUtf8([0xF0, 0x8F, 0xBF, 0xBF]) && ValidUtf8([0xF0, 0x90, 0x80, 0x80])
    ensures !ValidUtf8([0xF4, 0x90, 0x80, 0x80]) && ValidUtf8([0xF4, 0x8F, 0xBF, 0xBF])
    ensures ValidUtf8([0xC2, 0x80]) && !ValidUtf8([0xC2, 0x7F]) && !ValidUtf8([0xE2, 0x82])
  {
    var a: seq<byte> := [0xED, 0x9F, 0xBF];
    assert SeqLen(a) == 3 && a[3..] == [];
    var b: seq<byte> := [0xE0, 0xA0, 0x80];
    assert SeqLen(b) == 3 && b[3..] == [];
    var c: seq<byte> := [0xF0, 0x90, 0x80, 0x80];
    assert SeqLen(c) == 4 && c[4..] == [];
    var d: seq<byte> := [0xF4, 0x8F, 0xBF, 0xBF];
    assert SeqLen(d) == 4 && d[4..] == [];
    var e: seq<byte> := [0xC2, 0x80];
    assert SeqLen(e) == 2 && e[2..] == [];
  }

  /** ASCII text (every byte below 0x80) is well-formed UTF-8. */
  lemma {:induction false} AsciiIsValidUtf8(s: seq<byte>)
    requires forall i :: 0 <= i < |s| ==> s[i] < 0x80
    ensures ValidUtf8(s)
    decreases |s|
  {
    if |s| > 0 {
      assert SeqLen(s) == 1;
      AsciiIsValidUtf8(s[1..]);
    }
  }
}
