/** Byte-level vocabulary shared by the codec: fixed-width integers, big-endian
    fields, the error outcomes of the codec, and the copy of a byte sequence
    into a pre-sized buffer (what `DataView.setUint8` loops and
    `Uint8Array.set` do in the implementation). */
module Wire {

  /** A value stored in one `Uint8Array` cell. */
  type uint8 = x: int | 0 <= x < 0x100

  /** What a `Uint8Array` cell or `DataView.setUint8` keeps of an integer:
      its value modulo 256. */
  function Byte(x: int): (b: uint8)
    ensures 0 <= x < 0x100 ==> b == x
  {
    x % 0x100
  }

  /** A value a `DataView.setUint16` call stores without wrap-around. */
  type uint16 = x: int | 0 <= x < 0x1_0000

  /** A value a `DataView.setUint32` call stores without wrap-around. */
  type uint32 = x: int | 0 <= x < 0x1_0000_0000

  datatype Option<+T> = None | Some(value: T)

  /** The record sections of a message, in wire order. */
  datatype Section = Questions | Answers | Authorities | Additional

  /** What the implementation throws, or where it would never return.
      - OutOfBounds: a `DataView` read or a `Uint8Array` view beyond the end (RangeError);
      - UnterminatedName: a name whose zero terminator cannot be reached inside the input;
      - TooManyRecords: a section with more than 65535 entries at encode time;
      - NoQuestion: `questions[0]` read on an empty question list (TypeError). */
  datatype Error = OutOfBounds | UnterminatedName | TooManyRecords(section: Section) | NoQuestion

  datatype Result<+T> = Success(value: T) | Failure(error: Error)

  /** Big-endian (network order) encoding of a 16-bit field. */
  function BE16(v: uint16): (r: seq<uint8>)
    ensures |r| == 2 && ReadU16(r, 0) == v
  {
    [v / 0x100, v % 0x100]
  }

  /** Big-endian (network order) encoding of a 32-bit field. */
  function BE32(v: uint32): (r: seq<uint8>)
    ensures |r| == 4 && ReadU32(r, 0) == v
  {
    BE16(v / 0x1_0000) + BE16(v % 0x1_0000)
  }

  /** `DataView.getUint16(at, false)`: the big-endian 16-bit value at `at`;
      its high byte is the one at `at`, its low byte the next. */
  function ReadU16(data: seq<uint8>, at: nat): (r: uint16)
    requires at + 2 <= |data|
    ensures r / 0x100 == data[at] && r % 0x100 == data[at + 1]
  {
    (data[at] as int) * 0x100 + data[at + 1]
  }

  /** `DataView.getUint32(at, false)`: the big-endian 32-bit value at `at`;
      its high half is the 16-bit word at `at`, its low half the next one. */
  function ReadU32(data: seq<uint8>, at: nat): (r: uint32)
    requires at + 4 <= |data|
    ensures r / 0x1_0000 == ReadU16(data, at) && r % 0x1_0000 == ReadU16(data, at + 2)
  {
    ReadU16(data, at) * 0x1_0000 + ReadU16(data, at + 2)
  }

  /** Copies `src` into `buf` starting at `at`; everything outside the
      written window keeps its old value. */
  method WriteBytes(buf: array<uint8>, at: nat, src: seq<uint8>)
    requires at + |src| <= buf.Length
    modifies buf
    ensures buf[..at + |src|] == old(buf[..at]) + src
    ensures buf[at + |src|..] == old(buf[at + |src|..])
  {
    for i := 0 to |src|
      invariant buf[..at + i] == old(buf[..at]) + src[..i]
      invariant buf[at + i..] == old(buf[at + i..])
    {
      buf[at + i] := src[i];
      assert src[..i + 1] == src[..i] + [src[i]];
    }
    assert src[..|src|] == src;
  }

  /** Writes the field `src` at `at`, right after the bytes `written`
      already placed from `start` on; nothing before `start` or after the
      field changes. */
  method WriteField(buf: array<uint8>, start: nat, ghost written: seq<uint8>, at: nat, src: seq<uint8>)
    requires at == start + |written| && at + |src| <= buf.Length
    requires buf[start..at] == written
    modifies buf
    ensures buf[..start] == old(buf[..start])
    ensures buf[start..at + |src|] == written + src
    ensures buf[at + |src|..] == old(buf[at + |src|..])
  {
    WriteBytes(buf, at, src);
    assert buf[start..start + |written| + |src|] == buf[..start + |written| + |src|][start..];
  }

  /** A buffer whose prefix up to `at` was kept and whose window from `at`
      on now holds `rec` has `rec` appended to that prefix. */
  lemma PrefixExtend(before: seq<uint8>, after: seq<uint8>, at: nat, rec: seq<uint8>)
    requires at <= |before| && at + |rec| <= |after|
    requires after[..at] == before[..at] && after[at..at + |rec|] == rec
    ensures after[..at + |rec|] == before[..at] + rec
  {
    assert after[..at + |rec|] == after[..at] + after[at..at + |rec|];
  }

  /** A write that keeps every byte from `from` on keeps every byte from
      any later `end` on. */
  lemma SuffixKept(before: seq<uint8>, after: seq<uint8>, from: nat, end: nat)
    requires from <= end <= |after| && |before| == |after| && after[from..] == before[from..]
    ensures after[end..] == before[end..]
  {
    assert after[end..] == after[from..][end - from..];
    assert before[end..] == before[from..][end - from..];
  }

  /** Three fields written one after the other from `at` on; the bytes
      before and after them keep their values. */
  method Write3(buf: array<uint8>, at: nat, a: seq<uint8>, b: seq<uint8>, c: seq<uint8>)
    requires at + |a| + |b| + |c| <= buf.Length
    modifies buf
    ensures buf[..at] == old(buf[..at])
    ensures buf[at..at + |a + b + c|] == a + b + c
    ensures buf[at + |a + b + c|..] == old(buf[at + |a + b + c|..])
  {
    ghost var end := at + |a| + |b| + |c|;
    ghost var b0 := buf[..];
    WriteField(buf, at, [], at, a);
    SuffixKept(b0, buf[..], at + |a|, end);
    ghost var b1 := buf[..];
    WriteField(buf, at, a, at + |a|, b);
    SuffixKept(b1, buf[..], at + |a| + |b|, end);
    ghost var b2 := buf[..];
    WriteField(buf, at, a + b, at + |a| + |b|, c);
    SuffixKept(b2, buf[..], end, end);
  }

  /** Five fields written one after the other from `at` on; the bytes
      before and after them keep their values. */
  method Write5(buf: array<uint8>, at: nat, a: seq<uint8>, b: seq<uint8>, c: seq<uint8>, d: seq<uint8>, e: seq<uint8>)
    requires at + |a| + |b| + |c| + |d| + |e| <= buf.Length
    modifies buf
    ensures buf[..at] == old(buf[..at])
    ensures buf[at..at + |a + b + c + d + e|] == a + b + c + d + e
    ensures buf[at + |a + b + c + d + e|..] == old(buf[at + |a + b + c + d + e|..])
  {
    ghost var end := at + |a| + |b| + |c| + |d| + |e|;
    ghost var b0 := buf[..];
    WriteField(buf, at, [], at, a);
    SuffixKept(b0, buf[..], at + |a|, end);
    ghost var b1 := buf[..];
    WriteField(buf, at, a, at + |a|, b);
    SuffixKept(b1, buf[..], at + |a| + |b|, end);
    ghost var b2 := buf[..];
    WriteField(buf, at, a + b, at + |a| + |b|, c);
    SuffixKept(b2, buf[..], at + |a| + |b| + |c|, end);
    ghost var b3 := buf[..];
    WriteField(buf, at, a + b + c, at + |a| + |b| + |c|, d);
    SuffixKept(b3, buf[..], at + |a| + |b| + |c| + |d|, end);
    ghost var b4 := buf[..];
    WriteField(buf, at, a + b + c + d, at + |a| + |b| + |c| + |d|, e);
    SuffixKept(b4, buf[..], end, end);
  }

  /** The record `rec`, made of six fields, written field by field from
      `at` on. */
  method Write6(buf: array<uint8>, at: nat, ghost rec: seq<uint8>,
                a: seq<uint8>, b: seq<uint8>, c: seq<uint8>, d: seq<uint8>, e: seq<uint8>, f: seq<uint8>)
    requires rec == a + b + c + d + e + f
    requires at + |rec| <= buf.Length
    modifies buf
    ensures buf[..at] == old(buf[..at])
    ensures buf[at..at + |rec|] == rec
    ensures buf[at + |rec|..] == old(buf[at + |rec|..])
  {
    assert |rec| == |a| + |b| + |c| + |d| + |e| + |f|;
    Write5(buf, at, a, b, c, d, e);
    assert buf[at + |rec|..] == old(buf[at + |rec|..]);
    WriteField(buf, at, a + b + c + d + e, at + |a| + |b| + |c| + |d| + |e|, f);
  }
}
